/** doctest's subcase engine (extern/doctest.h): a test body is run again and again,
    each run descending into one subcase path, until every leaf has had its run.

    A test body is a static forest of subcases: each run meets the same subcases in
    the same order. The hash of a path is an arbitrary function. */
module Subcases {

  import opened Basics

  datatype Signature = Signature(name: string, file: string, line: int)

  type Path = seq<Signature>

  datatype Tree = Subcase(sig: Signature, body: seq<Tree>)

  /** Sibling subcases can be told apart by their signatures, at every level. */
  ghost predicate DistinctSiblings(forest: seq<Tree>) {
    forest != [] ==>
      && (forall t :: t in forest[1..] ==> t.sig != forest[0].sig)
      && DistinctSiblings(forest[0].body)
      && DistinctSiblings(forest[1..])
  }

  /** What the engine is specified against: the paths of the leaves, depth first. */
  function Leaves(forest: seq<Tree>, prefix: Path): (paths: seq<Path>)
    ensures forest != [] ==> paths != []
  {
    if forest == [] then [] else TreeLeaves(forest[0], prefix) + Leaves(forest[1..], prefix)
  }

  function TreeLeaves(t: Tree, prefix: Path): (paths: seq<Path>)
    ensures paths != []
  {
    if t.body == [] then [prefix + [t.sig]] else Leaves(t.body, prefix + [t.sig])
  }

  lemma LeavesSplit(forest: seq<Tree>, prefix: Path)
    ensures Leaves([], prefix) == []
    ensures forest != [] ==> |Leaves(forest, prefix)| == |TreeLeaves(forest[0], prefix)| + |Leaves(forest[1..], prefix)|
  {
  }

  /** For each leaf, the path of the subcase through which it is first discovered: the
      outermost enclosing subcase that does not enclose an earlier leaf. */
  function Entries(forest: seq<Tree>, prefix: Path): (paths: seq<Path>)
    ensures |paths| == |Leaves(forest, prefix)|
    ensures forest != [] ==> paths[0] == prefix + [forest[0].sig]
  {
    if forest == [] then [] else TreeEntries(forest[0], prefix) + Entries(forest[1..], prefix)
  }

  function TreeEntries(t: Tree, prefix: Path): (paths: seq<Path>)
    ensures |paths| == |TreeLeaves(t, prefix)| && paths[0] == prefix + [t.sig]
  {
    if t.body == [] then [prefix + [t.sig]] else Entries(t.body, prefix + [t.sig])[0 := prefix + [t.sig]]
  }

  /** The path goes through one of the forest's trees. */
  ghost predicate Through(path: Path, forest: seq<Tree>, prefix: Path) {
    prefix < path && exists t :: t in forest && t.sig == path[|prefix|]
  }

  lemma {:induction false} PathsGoThrough(forest: seq<Tree>, prefix: Path, i: nat)
    requires i < |Leaves(forest, prefix)|
    ensures Through(Leaves(forest, prefix)[i], forest, prefix)
    ensures Through(Entries(forest, prefix)[i], forest, prefix)
    ensures Entries(forest, prefix)[i] <= Leaves(forest, prefix)[i]
  {
    var n := |TreeLeaves(forest[0], prefix)|;
    assert forest[0] in forest;
    if i < n {
      TreePathsGoThrough(forest[0], prefix, i);
    } else {
      PathsGoThrough(forest[1..], prefix, i - n);
    }
  }

  lemma {:induction false} TreePathsGoThrough(t: Tree, prefix: Path, i: nat)
    requires i < |TreeLeaves(t, prefix)|
    ensures prefix + [t.sig] <= TreeEntries(t, prefix)[i] <= TreeLeaves(t, prefix)[i]
    ensures t.body != [] ==> prefix + [t.sig] < TreeLeaves(t, prefix)[i] && prefix + [t.sig] < Entries(t.body, prefix + [t.sig])[i]
  {
    if t.body != [] { PathsGoThrough(t.body, prefix + [t.sig], i); }
  }

  /** No leaf path extends another: distinct leaves part at some pair of siblings. */
  lemma {:induction false} LeavesPart(forest: seq<Tree>, prefix: Path, i: nat, j: nat)
    requires DistinctSiblings(forest)
    requires i < j < |Leaves(forest, prefix)|
    ensures !(Leaves(forest, prefix)[i] <= Leaves(forest, prefix)[j])
  {
    var t, n := forest[0], |TreeLeaves(forest[0], prefix)|;
    if j < n {
      LeavesPart(t.body, prefix + [t.sig], i, j);
    } else if i < n {
      TreePathsGoThrough(t, prefix, i);
      PathsGoThrough(forest[1..], prefix, j - n);
    } else {
      LeavesPart(forest[1..], prefix, i - n, j - n);
    }
  }

  /** The hash never mistakes the discovery of a leaf for a leaf that has already run. */
  ghost predicate HashTells(hash: Path -> int, forest: seq<Tree>) {
    forall i, j :: 0 <= i < j < |Leaves(forest, [])| ==> hash(Leaves(forest, [])[i]) != hash(Entries(forest, [])[j])
  }

  /** An injective hash tells: an entry is never the path of an earlier leaf. */
  lemma InjectiveHashTells(hash: Path -> int, forest: seq<Tree>)
    requires DistinctSiblings(forest)
    requires forall p, q :: hash(p) == hash(q) ==> p == q
    ensures HashTells(hash, forest)
  {
    forall i, j | 0 <= i < j < |Leaves(forest, [])|
      ensures hash(Leaves(forest, [])[i]) != hash(Entries(forest, [])[j])
    {
      LeavesPart(forest, [], i, j);
      PathsGoThrough(forest, [], j);
    }
  }

  // ---- which leaf comes next ----

  /** How many leaves come before the first of these siblings whose path is not among the
      hashes of what has run; all of them, if there is none. */
  function FirstFresh(hash: Path -> int, forest: seq<Tree>, prefix: Path, run: set<int>): (k: nat)
    ensures k <= |Leaves(forest, prefix)|
  {
    if forest == [] || hash(prefix + [forest[0].sig]) !in run then 0
    else |TreeLeaves(forest[0], prefix)| + FirstFresh(hash, forest[1..], prefix, run)
  }

  /** The leaf that is discovered on the way back from the `i`-th; their number, if none is. */
  function Next(hash: Path -> int, forest: seq<Tree>, prefix: Path, run: set<int>, i: nat): (k: nat)
    requires i < |Leaves(forest, prefix)|
    ensures i < k <= |Leaves(forest, prefix)|
  {
    var n := |TreeLeaves(forest[0], prefix)|;
    if i >= n then n + Next(hash, forest[1..], prefix, run, i - n)
    else
      var k := NextInTree(hash, forest[0], prefix, run, i);
      if k < n then k else n + FirstFresh(hash, forest[1..], prefix, run)
  }

  function NextInTree(hash: Path -> int, t: Tree, prefix: Path, run: set<int>, i: nat): (k: nat)
    requires i < |TreeLeaves(t, prefix)|
    ensures i < k <= |TreeLeaves(t, prefix)|
  {
    if t.body == [] then 1 else Next(hash, t.body, prefix + [t.sig], run, i)
  }

  /** The leaves that run from the `i`-th on, when these hashes are of those that have run. */
  function Visited(hash: Path -> int, forest: seq<Tree>, run: set<int>, i: nat): (paths: seq<Path>)
    requires i <= |Leaves(forest, [])|
    ensures |paths| <= |Leaves(forest, [])| - i
    decreases |Leaves(forest, [])| - i
  {
    var leaves := Leaves(forest, []);
    if i == |leaves| then []
    else
      var run' := run + {hash(leaves[i])};
      [leaves[i]] + Visited(hash, forest, run', Next(hash, forest, [], run', i))
  }

  /** The next leaf comes next exactly when its discovery is not taken for one that has run. */
  lemma {:induction false} NextIsNext(hash: Path -> int, forest: seq<Tree>, prefix: Path, run: set<int>, i: nat)
    requires i < |Leaves(forest, prefix)|
    ensures Next(hash, forest, prefix, run, i) == i + 1
       <==> (i + 1 < |Leaves(forest, prefix)| ==> hash(Entries(forest, prefix)[i + 1]) !in run)
  {
    var t, rest := forest[0], forest[1..];
    var n := |TreeLeaves(t, prefix)|;
    assert Entries(forest, prefix) == TreeEntries(t, prefix) + Entries(rest, prefix);
    if i >= n {
      NextIsNext(hash, rest, prefix, run, i - n);
    } else if t.body != [] {
      NextIsNext(hash, t.body, prefix + [t.sig], run, i);
    }
  }

  /** The hashes of the leaves before the `i`-th. */
  ghost function HashesOf(hash: Path -> int, leaves: seq<Path>, i: nat): set<int>
    requires i <= |leaves|
  {
    set k | 0 <= k < i :: hash(leaves[k])
  }

  ghost predicate TellsFrom(hash: Path -> int, forest: seq<Tree>, i: nat) {
    forall j :: i < j < |Leaves(forest, [])| ==> hash(Entries(forest, [])[j]) !in HashesOf(hash, Leaves(forest, []), j)
  }

  lemma {:induction false} VisitedFrom(hash: Path -> int, forest: seq<Tree>, run: set<int>, i: nat)
    requires i <= |Leaves(forest, [])| && run == HashesOf(hash, Leaves(forest, []), i)
    ensures Visited(hash, forest, run, i) == Leaves(forest, [])[i..] <==> TellsFrom(hash, forest, i)
    decreases |Leaves(forest, [])| - i
  {
    hide Next, Leaves, Entries, Visited, TellsFrom, HashesOf;
    var leaves := Leaves(forest, []);
    VisitedStep(hash, forest, run, i);
    TellsStep(hash, forest, i);
    if i < |leaves| {
      var run' := run + {hash(leaves[i])};
      OneMoreHash(hash, leaves, i);
      NextIsNext(hash, forest, [], run', i);
      assert leaves[i..] == [leaves[i]] + leaves[i + 1..];
      if Next(hash, forest, [], run', i) == i + 1 { VisitedFrom(hash, forest, run', i + 1); }
    }
  }

  lemma VisitedStep(hash: Path -> int, forest: seq<Tree>, run: set<int>, i: nat)
    requires i <= |Leaves(forest, [])|
    ensures var leaves := Leaves(forest, []);
            if i == |leaves| then Visited(hash, forest, run, i) == leaves[i..] == []
            else
              var run' := run + {hash(leaves[i])};
              Visited(hash, forest, run, i) == [leaves[i]] + Visited(hash, forest, run', Next(hash, forest, [], run', i))
  {
    hide Next, Leaves;
  }

  lemma OneMoreHash(hash: Path -> int, leaves: seq<Path>, i: nat)
    requires i < |leaves|
    ensures HashesOf(hash, leaves, i + 1) == HashesOf(hash, leaves, i) + {hash(leaves[i])}
  {
  }

  lemma TellsStep(hash: Path -> int, forest: seq<Tree>, i: nat)
    requires i <= |Leaves(forest, [])|
    ensures var leaves := Leaves(forest, []);
            TellsFrom(hash, forest, i) <==>
              (i + 1 < |leaves| ==> hash(Entries(forest, [])[i + 1]) !in HashesOf(hash, leaves, i + 1))
              && (i < |leaves| ==> TellsFrom(hash, forest, i + 1))
  {
    hide Leaves, Entries, HashesOf;
  }

  /** Every leaf runs, in order, if and only if the hash tells. */
  lemma AllVisited(hash: Path -> int, forest: seq<Tree>)
    ensures Visited(hash, forest, {}, 0) == Leaves(forest, []) <==> HashTells(hash, forest)
  {
    hide Leaves, Entries, Visited;
    var leaves, entries := Leaves(forest, []), Entries(forest, []);
    assert HashesOf(hash, leaves, 0) == {};
    VisitedFrom(hash, forest, {}, 0);
    assert leaves[0..] == leaves;
    if TellsFrom(hash, forest, 0) {
      forall i, j | 0 <= i < j < |leaves| ensures hash(leaves[i]) != hash(entries[j]) {
        assert hash(leaves[i]) in HashesOf(hash, leaves, j);
      }
    }
  }

  /** Two siblings whose paths have one hash: the second never runs. */
  lemma SecondIsLost(hash: Path -> int, a: Signature, b: Signature)
    requires hash([a]) == hash([b])
    ensures Visited(hash, [Subcase(a, []), Subcase(b, [])], {}, 0) == [[a]]
    ensures Leaves([Subcase(a, []), Subcase(b, [])], []) == [[a], [b]]
  {
    var first, second := Subcase(a, []), Subcase(b, []);
    var forest := [first, second];
    assert forest[1..] == [second] && [second][1..] == [];
    assert [] + [a] == [a] && [] + [b] == [b];
    assert TreeLeaves(first, []) == [[a]] && TreeLeaves(second, []) == [[b]];
    assert Leaves([second], []) == [[b]];
    assert Leaves(forest, []) == [[a], [b]];
    assert FirstFresh(hash, [second], [], {hash([a])}) == 1;
    assert {} + {hash([a])} == {hash([a])};
    assert Next(hash, forest, [], {hash([a])}, 0) == 2;
  }

  // ---- the engine at one moment ----

  /** The engine's fields. */
  datatype Snapshot = Snapshot(stack: Path, next: Path, depth: int, reached: bool, traversed: set<int>, started: Path)

  /** Going down: no leaf reached yet, and the run is bound for the `i`-th of these leaves. */
  ghost predicate Bound(s: Snapshot, prefix: Path, leaves: seq<Path>, entries: seq<Path>, i: nat) {
    && !s.reached && s.stack == prefix && s.depth == |prefix|
    && |entries| == |leaves| && i < |leaves|
    && (s.next == entries[i] || (i == 0 && |s.next| <= |prefix|))
  }

  /** Going down, towards another sibling. */
  ghost predicate Elsewhere(s: Snapshot, prefix: Path, sig: Signature) {
    !s.reached && s.stack == prefix && s.depth == |prefix| && |s.next| > |prefix| && s.next[|prefix|] != sig
  }

  /** Coming back: the leaf is behind, and these trees come after it. */
  ghost predicate Past(s: Snapshot, prefix: Path, forest: seq<Tree>) {
    && s.reached && prefix < s.stack && s.depth == |prefix|
    && (forall t :: t in forest ==> t.sig != s.stack[|prefix|])
    && (s.next == [] || |s.next| > |prefix|)
  }

  function PathAt(paths: seq<Path>, k: nat): Path {
    if k < |paths| then paths[k] else []
  }

  /** The run has been through the `i`-th leaf and has discovered the `k`-th, if there is one. */
  ghost predicate Arrived(s: Snapshot, s': Snapshot, hash: Path -> int, prefix: Path, leaves: seq<Path>, entries: seq<Path>, i: nat, k: nat)
  {
    && i < |leaves| && prefix < leaves[i]
    && s' == Snapshot(leaves[i], PathAt(entries, k), |prefix|, true,
                      s.traversed + {hash(leaves[i])}, s.started + leaves[i][|prefix|..])
  }

  ghost predicate ArrivedInTree(s: Snapshot, s': Snapshot, hash: Path -> int, prefix: Path, t: Tree, i: nat)
    requires i < |TreeLeaves(t, prefix)|
  {
    Arrived(s, s', hash, prefix, TreeLeaves(t, prefix), TreeEntries(t, prefix), i,
            NextInTree(hash, t, prefix, s.traversed + {hash(TreeLeaves(t, prefix)[i])}, i))
  }

  ghost predicate ArrivedInForest(s: Snapshot, s': Snapshot, hash: Path -> int, prefix: Path, forest: seq<Tree>, i: nat)
    requires i < |Leaves(forest, prefix)|
  {
    Arrived(s, s', hash, prefix, Leaves(forest, prefix), Entries(forest, prefix), i,
            Next(hash, forest, prefix, s.traversed + {hash(Leaves(forest, prefix)[i])}, i))
  }

  /** Coming back past siblings: the first that is not taken for one that has run becomes the
      next target, if there is none yet. */
  function AfterSiblings(s: Snapshot, hash: Path -> int, prefix: Path, forest: seq<Tree>): Snapshot {
    if forest == [] || s.next != [] then s
    else if hash(prefix + [forest[0].sig]) !in s.traversed then s.(next := prefix + [forest[0].sig])
    else AfterSiblings(s, hash, prefix, forest[1..])
  }

  lemma AfterFirst(s: Snapshot, hash: Path -> int, prefix: Path, forest: seq<Tree>)
    requires forest != []
    ensures AfterSiblings(AfterSiblings(s, hash, prefix, [forest[0]]), hash, prefix, forest[1..]) == AfterSiblings(s, hash, prefix, forest)
  {
    assert [forest[0]][1..] == [];
  }

  lemma AfterIsSame(s: Snapshot, hash: Path -> int, prefix: Path, forest: seq<Tree>)
    ensures s.next != [] ==> AfterSiblings(s, hash, prefix, forest) == s
  {
  }

  lemma {:induction false} AfterIsFirstFresh(s: Snapshot, hash: Path -> int, prefix: Path, forest: seq<Tree>)
    requires s.next == []
    ensures AfterSiblings(s, hash, prefix, forest)
         == s.(next := PathAt(Entries(forest, prefix), FirstFresh(hash, forest, prefix, s.traversed)))
  {
    if forest != [] { AfterIsFirstFresh(s, hash, prefix, forest[1..]); }
  }

  /** The engine right after it has entered a subcase while going down. */
  function Entered(s: Snapshot, sig: Signature): Snapshot {
    s.(stack := s.stack + [sig], depth := s.depth + 1, started := s.started + [sig])
  }

  /** A run bound for one of the tree's leaves enters it, and is then bound for the same leaf of its body. */
  lemma BoundEnters(s: Snapshot, prefix: Path, t: Tree, i: nat)
    requires Bound(s, prefix, TreeLeaves(t, prefix), TreeEntries(t, prefix), i)
    ensures |s.next| <= |prefix| || s.next[|prefix|] == t.sig
    ensures t.body != [] ==>
              Bound(Entered(s, t.sig), prefix + [t.sig], Leaves(t.body, prefix + [t.sig]), Entries(t.body, prefix + [t.sig]), i)
  {
    TreePathsGoThrough(t, prefix, i);
  }

  /** Leaving the tree after its body has arrived: the tree has arrived. */
  lemma LeavesTree(s: Snapshot, s': Snapshot, hash: Path -> int, prefix: Path, t: Tree, i: nat)
    requires t.body != [] && s.depth == |prefix| && i < |Leaves(t.body, prefix + [t.sig])|
    requires ArrivedInForest(Entered(s, t.sig), s', hash, prefix + [t.sig], t.body, i)
    ensures ArrivedInTree(s, s'.(depth := |prefix|), hash, prefix, t, i)
  {
    TreePathsGoThrough(t, prefix, i);
    assert s.started + [t.sig] + s'.stack[|prefix| + 1..] == s.started + s'.stack[|prefix|..];
  }

  lemma BoundSplits(s: Snapshot, prefix: Path, forest: seq<Tree>, i: nat)
    requires forest != [] && DistinctSiblings(forest)
    requires Bound(s, prefix, Leaves(forest, prefix), Entries(forest, prefix), i)
    ensures i < |TreeLeaves(forest[0], prefix)| ==>
              Bound(s, prefix, TreeLeaves(forest[0], prefix), TreeEntries(forest[0], prefix), i)
    ensures i >= |TreeLeaves(forest[0], prefix)| ==>
              && Elsewhere(s, prefix, forest[0].sig)
              && Bound(s, prefix, Leaves(forest[1..], prefix), Entries(forest[1..], prefix), i - |TreeLeaves(forest[0], prefix)|)
  {
    var t, rest := forest[0], forest[1..];
    var n := |TreeLeaves(t, prefix)|;
    assert Leaves(forest, prefix) == TreeLeaves(t, prefix) + Leaves(rest, prefix);
    assert Entries(forest, prefix) == TreeEntries(t, prefix) + Entries(rest, prefix);
    if i >= n { PathsGoThrough(rest, prefix, i - n); }
    hide Leaves, Entries, TreeLeaves, TreeEntries;
  }

  lemma ArrivedThenPast(s: Snapshot, s': Snapshot, hash: Path -> int, prefix: Path, forest: seq<Tree>, i: nat)
    requires forest != [] && DistinctSiblings(forest) && i < |TreeLeaves(forest[0], prefix)|
    requires ArrivedInTree(s, s', hash, prefix, forest[0], i)
    ensures Past(s', prefix, forest[1..])
  {
    var t := forest[0];
    var k := NextInTree(hash, t, prefix, s.traversed + {hash(TreeLeaves(t, prefix)[i])}, i);
    TreePathsGoThrough(t, prefix, i);
    if k < |TreeLeaves(t, prefix)| { TreePathsGoThrough(t, prefix, k); }
  }

  /** The first tree has arrived, and its siblings have been passed. */
  lemma ArrivedFirst(s: Snapshot, s1: Snapshot, s2: Snapshot, hash: Path -> int, prefix: Path, forest: seq<Tree>, i: nat)
    requires forest != [] && i < |TreeLeaves(forest[0], prefix)|
    requires ArrivedInTree(s, s1, hash, prefix, forest[0], i) && s2 == AfterSiblings(s1, hash, prefix, forest[1..])
    ensures ArrivedInForest(s, s2, hash, prefix, forest, i)
  {
    var t, rest := forest[0], forest[1..];
    var k := NextInTree(hash, t, prefix, s1.traversed, i);
    hide NextInTree, AfterSiblings, FirstFresh;
    assert AfterSiblings(s1, hash, prefix, rest) == s1 || s1.next == [] by { AfterIsSame(s1, hash, prefix, rest); }
    assert Leaves(forest, prefix) == TreeLeaves(t, prefix) + Leaves(rest, prefix);
    assert Entries(forest, prefix) == TreeEntries(t, prefix) + Entries(rest, prefix);
    if k < |TreeLeaves(t, prefix)| {
      TreePathsGoThrough(t, prefix, k);
    } else {
      AfterIsFirstFresh(s1, hash, prefix, rest);
    }
  }

  /** A tree further on has arrived. */
  lemma ArrivedLater(s: Snapshot, s': Snapshot, hash: Path -> int, prefix: Path, forest: seq<Tree>, i: nat)
    requires forest != [] && |TreeLeaves(forest[0], prefix)| <= i < |Leaves(forest, prefix)|
    requires ArrivedInForest(s, s', hash, prefix, forest[1..], i - |TreeLeaves(forest[0], prefix)|)
    ensures ArrivedInForest(s, s', hash, prefix, forest, i)
  {
    var t, rest := forest[0], forest[1..];
    assert Leaves(forest, prefix) == TreeLeaves(t, prefix) + Leaves(rest, prefix);
    assert Entries(forest, prefix) == TreeEntries(t, prefix) + Entries(rest, prefix);
  }

  // ---- one run of the test body ----

  /** A subcase is entered on the way down if it is the target or there is none, and on the way
      back if it has the signature of one that is on the stack. */
  predicate Enters(s: Snapshot, sig: Signature)
    requires InStack(s)
  {
    if s.reached then s.stack[s.depth] == sig else |s.next| <= |s.stack| || s.next[|s.stack|] == sig
  }

  /** The engine reads its stack at the current depth only on the way back. */
  predicate InStack(s: Snapshot) {
    s.reached ==> 0 <= s.depth < |s.stack|
  }

  function Opened(s: Snapshot, sig: Signature): Snapshot
    requires InStack(s) && Enters(s, sig)
  {
    s.(stack := s.stack + if s.reached then [] else [sig], depth := s.depth + 1, started := s.started + [sig])
  }

  function PassedBy(s: Snapshot, hash: Path -> int, sig: Signature): Snapshot
    requires InStack(s) && !Enters(s, sig)
  {
    if s.reached && |s.next| <= s.depth && hash(s.stack[..s.depth] + [sig]) !in s.traversed
    then s.(next := s.stack[..s.depth] + [sig]) else s
  }

  function Closed(s: Snapshot, hash: Path -> int): Snapshot {
    var next := if s.reached then s.next else [];
    s.(depth := s.depth - 1, next := next, reached := true,
       traversed := s.traversed + if next == [] then {hash(s.stack)} else {})
  }

  /** One pass over the subcases of a level; none, if the engine reads outside its stack. */
  function Pass(forest: seq<Tree>, hash: Path -> int, s: Snapshot): Option<Snapshot> {
    if forest == [] then Some(s)
    else
      var first := PassTree(forest[0], hash, s);
      if first.None? then None else Pass(forest[1..], hash, first.value)
  }

  function PassTree(t: Tree, hash: Path -> int, s: Snapshot): Option<Snapshot> {
    if !InStack(s) then None
    else if !Enters(s, t.sig) then Some(PassedBy(s, hash, t.sig))
    else
      var inside := Pass(t.body, hash, Opened(s, t.sig));
      if inside.None? then None else Some(Closed(inside.value, hash))
  }

  // ---- when a run stays inside the stack ----

  /** On the way back from the end of this stack, through these subcases at this depth. */
  predicate Returns(forest: seq<Tree>, stack: Path, depth: nat) {
    forest != [] ==>
      && depth < |stack|
      && (forest[0].sig == stack[depth] ==> Returns(forest[0].body, stack, depth + 1))
      && Returns(forest[1..], stack, depth)
  }

  lemma {:induction false} ReturnInside(forest: seq<Tree>, hash: Path -> int, s: Snapshot)
    requires s.reached && s.depth >= 0
    ensures var r := Pass(forest, hash, s);
            && (r.Some? <==> Returns(forest, s.stack, s.depth))
            && (r.Some? ==> r.value.reached && r.value.stack == s.stack && r.value.depth == s.depth)
    decreases forest, 0
  {
    if forest != [] {
      ReturnInsideTree(forest[0], hash, s);
      var first := PassTree(forest[0], hash, s);
      if first.Some? { ReturnInside(forest[1..], hash, first.value); }
    }
  }

  lemma {:induction false} ReturnInsideTree(t: Tree, hash: Path -> int, s: Snapshot)
    requires s.reached && s.depth >= 0
    ensures var r := PassTree(t, hash, s);
            && (r.Some? <==> s.depth < |s.stack| && (t.sig == s.stack[s.depth] ==> Returns(t.body, s.stack, s.depth + 1)))
            && (r.Some? ==> r.value.reached && r.value.stack == s.stack && r.value.depth == s.depth)
    decreases t
  {
    if s.depth < |s.stack| && t.sig == s.stack[s.depth] {
      assert s.stack + [] == s.stack;
      ReturnInside(t.body, hash, Opened(s, t.sig));
    }
  }

  /** The stack of a run that has come to `stack` and goes on through these subcases. */
  function Down(forest: seq<Tree>, next: Path, stack: Path): Path {
    if forest == [] then stack
    else if |next| <= |stack| || next[|stack|] == forest[0].sig then Down(forest[0].body, next, stack + [forest[0].sig])
    else Down(forest[1..], next, stack)
  }

  /** Such a run stays inside its stack. */
  predicate StaysInside(forest: seq<Tree>, next: Path, stack: Path) {
    forest != [] ==>
      if |next| <= |stack| || next[|stack|] == forest[0].sig then
        var path := stack + [forest[0].sig];
        StaysInside(forest[0].body, next, path) && Returns(forest[1..], Down(forest[0].body, next, path), |stack|)
      else StaysInside(forest[1..], next, stack)
  }

  /** Whether the engine reads outside its stack depends on the test body and the target of the
      run alone, not on the hash: exactly when `StaysInside` fails. */
  lemma {:induction false} RunInside(forest: seq<Tree>, hash: Path -> int, s: Snapshot)
    requires !s.reached && s.depth == |s.stack|
    ensures var r := Pass(forest, hash, s);
            && (r.Some? <==> StaysInside(forest, s.next, s.stack))
            && (r.Some? ==> r.value.stack == Down(forest, s.next, s.stack) && r.value.depth == s.depth)
            && (r.Some? && !r.value.reached ==> r.value == s)
    decreases forest
  {
    if forest != [] {
      var t := forest[0];
      if Enters(s, t.sig) {
        RunInside(t.body, hash, Opened(s, t.sig));
        var inside := Pass(t.body, hash, Opened(s, t.sig));
        if inside.Some? { ReturnInside(forest[1..], hash, Closed(inside.value, hash)); }
      } else {
        RunInside(forest[1..], hash, s);
      }
    }
  }

  /** The fields at the start of a run. */
  function Start(next: Path, traversed: set<int>): Snapshot {
    Snapshot([], next, 0, false, traversed, [])
  }

  /** Two sibling subcases of one signature, the first of them without subcases: a run that
      enters the first reads outside the stack exactly when the second one has subcases. */
  lemma EqualSiblings(a: Signature, body: seq<Tree>, hash: Path -> int, traversed: set<int>)
    ensures Pass([Subcase(a, []), Subcase(a, body)], hash, Start([], traversed)).Some? <==> body == []
  {
    var forest := [Subcase(a, []), Subcase(a, body)];
    RunInside(forest, hash, Start([], traversed));
    var second := [Subcase(a, body)];
    assert forest[1..] == second && second[1..] == [] && [] + [a] == [a];
    assert Returns(body, [a], 1) <==> body == [];
    assert Returns([], [a], 0);
    assert Returns(second, [a], 0) <==> body == [];
    assert Down([], [], [a]) == [a] && StaysInside([], [], [a]);
  }

  /** The engine after `n` runs of a test body, if it has stayed inside its stack. */
  function AfterRuns(forest: seq<Tree>, hash: Path -> int, n: nat): Option<Snapshot> {
    if n == 0 then Some(Start([], {}))
    else
      var before := AfterRuns(forest, hash, n - 1);
      if before.None? then None else Pass(forest, hash, Start(before.value.next, before.value.traversed))
  }

  /** A subcase, another one, and the first one again, each with one subcase of its own. */
  function Sandwich(a: Signature, x: Signature, b: Signature, y: Signature): seq<Tree> {
    [Subcase(a, [Subcase(x, [])]), Subcase(b, [Subcase(y, [])]), Subcase(a, [Subcase(x, [])])]
  }

  /** A leaf below one subcase, on the way down. */
  lemma DownToLeaf(a: Signature, x: Signature, hash: Path -> int, next: Path, run: set<int>)
    requires next == [] || next == [a]
    ensures PassTree(Subcase(a, [Subcase(x, [])]), hash, Start(next, run))
         == Some(Snapshot([a, x], [], 0, true, run + {hash([a, x])}, [a, x]))
  {
    var s := Start(next, run);
    assert [Subcase(x, [])][1..] == [] && [] + [a] == [a] && [a] + [x] == [a, x];
    var s1 := Opened(s, a);
    assert s1 == Snapshot([a], next, 1, false, run, [a]);
    var s2 := Opened(s1, x);
    assert s2 == Snapshot([a, x], next, 2, false, run, [a, x]);
    assert PassTree(Subcase(x, []), hash, s1) == Some(Closed(s2, hash));
    assert Pass([Subcase(x, [])], hash, s1) == Some(Closed(s2, hash));
    assert run + {hash([a, x])} + {hash([a, x])} == run + {hash([a, x])};
  }

  /** The same subcase again, on the way back. */
  lemma BackThroughLeaf(a: Signature, x: Signature, hash: Path -> int, s: Snapshot)
    requires s.reached && s.depth == 0 && s.stack == [a, x] && s.next != []
    ensures PassTree(Subcase(a, [Subcase(x, [])]), hash, s) == Some(s.(started := s.started + [a] + [x]))
  {
    assert [Subcase(x, [])][1..] == [] && s.stack + [] == s.stack;
    var s1 := Opened(s, a);
    var s2 := Opened(s1, x);
    assert PassTree(Subcase(x, []), hash, s1) == Some(Closed(s2, hash));
    assert Pass([Subcase(x, [])], hash, s1) == Some(Closed(s2, hash));
  }

  lemma RunOfFirst(a: Signature, x: Signature, b: Signature, y: Signature, hash: Path -> int, next: Path, run: set<int>)
    requires a != b && (next == [] || next == [a]) && hash([b]) !in run + {hash([a, x])}
    ensures var r := Pass(Sandwich(a, x, b, y), hash, Start(next, run));
            r.Some? && r.value.next == [b] && r.value.traversed == run + {hash([a, x])}
  {
    hide PassTree;
    var forest := Sandwich(a, x, b, y);
    DownToLeaf(a, x, hash, next, run);
    var s := PassTree(forest[0], hash, Start(next, run)).value;
    assert s.stack[..0] + [b] == [b];
    PassesOther(forest[1], hash, s);
    var s' := s.(next := [b]);
    BackThroughLeaf(a, x, hash, s');
    assert forest[1..][0] == forest[1] && forest[1..][1..] == [forest[2]] && [forest[2]][1..] == [];
    assert PassTree(forest[1], hash, s) == Some(s');
    assert Pass([forest[2]], hash, s') == Some(s'.(started := s'.started + [a] + [x]));
    assert Pass(forest[1..], hash, s) == Pass([forest[2]], hash, s');
  }

  lemma PassesOther(t: Tree, hash: Path -> int, s: Snapshot)
    requires InStack(s) && !Enters(s, t.sig)
    ensures PassTree(t, hash, s) == Some(PassedBy(s, hash, t.sig))
  {
  }

  lemma RunOfSecond(a: Signature, x: Signature, b: Signature, y: Signature, hash: Path -> int, run: set<int>)
    requires a != b && hash([a]) !in run + {hash([b, y])}
    ensures var r := Pass(Sandwich(a, x, b, y), hash, Start([b], run));
            r.Some? && r.value.next == [a] && r.value.traversed == run + {hash([b, y])}
  {
    hide PassTree;
    var forest := Sandwich(a, x, b, y);
    PassesOther(forest[0], hash, Start([b], run));
    DownToLeaf(b, y, hash, [b], run);
    var s := PassTree(forest[1], hash, Start([b], run)).value;
    assert s.stack[..0] + [a] == [a];
    PassesOther(forest[2], hash, s);
    assert forest[1..][0] == forest[1] && forest[1..][1..] == [forest[2]] && [forest[2]][1..] == [];
    assert Pass([forest[2]], hash, s) == Some(s.(next := [a]));
  }

  /** With two subcases of one signature and another between them the test body may run for
      ever: however often it has run, another run is due. */
  lemma {:induction false} NeverEnds(a: Signature, x: Signature, b: Signature, y: Signature, hash: Path -> int, n: nat)
    requires a != b && n > 0
    requires hash([a]) !in {hash([a, x]), hash([b, y])} && hash([b]) !in {hash([a, x]), hash([b, y])}
    ensures var r := AfterRuns(Sandwich(a, x, b, y), hash, n);
            && r.Some? && r.value.next == (if n % 2 == 1 then [b] else [a])
            && r.value.traversed <= {hash([a, x]), hash([b, y])}
  {
    hide Pass, Sandwich;
    if n == 1 {
      RunOfFirst(a, x, b, y, hash, [], {});
    } else {
      NeverEnds(a, x, b, y, hash, n - 1);
      var before := AfterRuns(Sandwich(a, x, b, y), hash, n - 1).value;
      if n % 2 == 1 {
        RunOfFirst(a, x, b, y, hash, [a], before.traversed);
      } else {
        RunOfSecond(a, x, b, y, hash, before.traversed);
      }
    }
  }

  class ContextState {
    const hash: Path -> int
    var subcaseStack: Path
    var nextSubcaseStack: Path
    var currentSubcaseDepth: int
    var reachedLeaf: bool
    var fullyTraversedSubcases: set<int>
    var started: Path  // the subcase_start notifications of the current run

    constructor (hash: Path -> int)
      ensures this.hash == hash
      ensures fullyTraversedSubcases == {} && nextSubcaseStack == []
    {
      this.hash := hash;
      subcaseStack, nextSubcaseStack, started := [], [], [];
      currentSubcaseDepth, reachedLeaf, fullyTraversedSubcases := 0, false, {};
    }

    /** The reset at the head of the run loop. */
    method BeginRun()
      modifies `reachedLeaf, `subcaseStack, `currentSubcaseDepth, `started
      ensures !reachedLeaf && subcaseStack == [] && currentSubcaseDepth == 0 && started == []
    {
      reachedLeaf, subcaseStack, currentSubcaseDepth, started := false, [], 0, [];
    }

    /** `Subcase::Subcase`. The precondition is what keeps the stack index in range. */
    method Open(sig: Signature) returns (entered: bool)
      requires reachedLeaf ==> 0 <= currentSubcaseDepth < |subcaseStack|
      modifies `subcaseStack, `nextSubcaseStack, `currentSubcaseDepth, `started
      ensures entered <==>
                if old(reachedLeaf) then old(subcaseStack)[old(currentSubcaseDepth)] == sig
                else |old(nextSubcaseStack)| <= |old(subcaseStack)| || old(nextSubcaseStack)[|old(subcaseStack)|] == sig
      ensures currentSubcaseDepth == old(currentSubcaseDepth) + if entered then 1 else 0
      ensures started == old(started) + if entered then [sig] else []
      ensures subcaseStack == old(subcaseStack) + if entered && !old(reachedLeaf) then [sig] else []
      ensures nextSubcaseStack ==
              if old(reachedLeaf) && !entered && |old(nextSubcaseStack)| <= old(currentSubcaseDepth)
                 && hash(old(subcaseStack)[..old(currentSubcaseDepth)] + [sig]) !in fullyTraversedSubcases
              then old(subcaseStack)[..old(currentSubcaseDepth)] + [sig] else old(nextSubcaseStack)
    {
      entered := false;
      if !reachedLeaf {
        if |nextSubcaseStack| <= |subcaseStack| || nextSubcaseStack[|subcaseStack|] == sig {
          subcaseStack := subcaseStack + [sig];
          currentSubcaseDepth := currentSubcaseDepth + 1;
          entered := true;
          started := started + [sig];
        }
      } else if subcaseStack[currentSubcaseDepth] == sig {
        currentSubcaseDepth := currentSubcaseDepth + 1;
        entered := true;
        started := started + [sig];
      } else if |nextSubcaseStack| <= currentSubcaseDepth
                && hash(subcaseStack[..currentSubcaseDepth] + [sig]) !in fullyTraversedSubcases {
        nextSubcaseStack := subcaseStack[..currentSubcaseDepth] + [sig];
      }
    }

    /** `Subcase::~Subcase`, for a subcase that was entered. */
    method Close()
      modifies `currentSubcaseDepth, `fullyTraversedSubcases, `nextSubcaseStack, `reachedLeaf
      ensures reachedLeaf && currentSubcaseDepth == old(currentSubcaseDepth) - 1
      ensures nextSubcaseStack == if old(reachedLeaf) then old(nextSubcaseStack) else []
      ensures fullyTraversedSubcases ==
              old(fullyTraversedSubcases) + if nextSubcaseStack == [] then {hash(subcaseStack)} else {}
    {
      currentSubcaseDepth := currentSubcaseDepth - 1;
      if !reachedLeaf {
        fullyTraversedSubcases := fullyTraversedSubcases + {hash(subcaseStack)};
        nextSubcaseStack := [];
        reachedLeaf := true;
      } else if nextSubcaseStack == [] {
        fullyTraversedSubcases := fullyTraversedSubcases + {hash(subcaseStack)};
      }
    }

    ghost function Now(): Snapshot
      reads this
    {
      Snapshot(subcaseStack, nextSubcaseStack, currentSubcaseDepth, reachedLeaf, fullyTraversedSubcases, started)
    }

    /** One subcase of the test body: its head, and its own body when it is entered. It stops
        where the engine would read outside its stack. */
    method RunSubcase(t: Tree) returns (ok: bool)
      modifies `subcaseStack, `nextSubcaseStack, `currentSubcaseDepth, `started, `fullyTraversedSubcases, `reachedLeaf
      ensures PassTree(t, hash, old(Now())) == if ok then Some(Now()) else None
      decreases t
    {
      ghost var before := Now();
      if reachedLeaf && !(0 <= currentSubcaseDepth < |subcaseStack|) {
        return false;
      }
      ok := true;
      var entered := Open(t.sig);
      if entered {
        assert Now() == Opened(before, t.sig);
        ok := Body(t.body);
        if ok {
          ghost var inside := Now();
          Close();
          assert Now() == Closed(inside, hash);
        }
      } else {
        assert Now() == PassedBy(before, hash, t.sig);
      }
    }

    /** One pass of the test body over its remaining subcases at one level. */
    method Body(forest: seq<Tree>) returns (ok: bool)
      modifies `subcaseStack, `nextSubcaseStack, `currentSubcaseDepth, `started, `fullyTraversedSubcases, `reachedLeaf
      ensures Pass(forest, hash, old(Now())) == if ok then Some(Now()) else None
      decreases forest
    {
      ok := true;
      if forest != [] {
        ghost var before := Now();
        ok := RunSubcase(forest[0]);
        assert PassTree(forest[0], hash, before) == if ok then Some(Now()) else None;
        if ok { ok := Body(forest[1..]); }
      }
    }
  }

  // ---- runs of a body with distinct siblings ----

  /** A run bound for one of the tree's leaves arrives there and plans the leaf that comes next. */
  lemma {:induction false} TreeArrives(t: Tree, hash: Path -> int, s: Snapshot, prefix: Path, i: nat)
    requires DistinctSiblings(t.body) && Bound(s, prefix, TreeLeaves(t, prefix), TreeEntries(t, prefix), i)
    ensures PassTree(t, hash, s).Some? && ArrivedInTree(s, PassTree(t, hash, s).value, hash, prefix, t, i)
    decreases t
  {
    BoundEnters(s, prefix, t, i);
    assert Opened(s, t.sig) == Entered(s, t.sig);
    if t.body != [] {
      hide Leaves, Entries;
      PassArrives(t.body, hash, Entered(s, t.sig), prefix + [t.sig], i);
      var inside := Pass(t.body, hash, Entered(s, t.sig)).value;
      LeavesTree(s, inside, hash, prefix, t, i);
    }
  }

  lemma {:induction false} PassArrives(forest: seq<Tree>, hash: Path -> int, s: Snapshot, prefix: Path, i: nat)
    requires DistinctSiblings(forest) && Bound(s, prefix, Leaves(forest, prefix), Entries(forest, prefix), i)
    ensures Pass(forest, hash, s).Some? && ArrivedInForest(s, Pass(forest, hash, s).value, hash, prefix, forest, i)
    decreases forest
  {
    hide Arrived, Leaves, Entries, TreeLeaves, TreeEntries, PassTree;
    LeavesSplit(forest, prefix);
    var n := |TreeLeaves(forest[0], prefix)|;
    BoundSplits(s, prefix, forest, i);
    if i < n {
      TreeArrives(forest[0], hash, s, prefix, i);
      var between := PassTree(forest[0], hash, s).value;
      ArrivedThenPast(s, between, hash, prefix, forest, i);
      PassReturns(forest[1..], hash, between, prefix);
      ArrivedFirst(s, between, Pass(forest, hash, s).value, hash, prefix, forest, i);
    } else {
      TreeElsewhere(forest[0], hash, s, prefix);
      PassArrives(forest[1..], hash, s, prefix, i - n);
      ArrivedLater(s, Pass(forest, hash, s).value, hash, prefix, forest, i);
    }
  }

  lemma TreeElsewhere(t: Tree, hash: Path -> int, s: Snapshot, prefix: Path)
    requires Elsewhere(s, prefix, t.sig)
    ensures PassTree(t, hash, s) == Some(s)
  {
  }

  lemma TreeReturns(t: Tree, hash: Path -> int, s: Snapshot, prefix: Path)
    requires Past(s, prefix, [t])
    ensures PassTree(t, hash, s) == Some(AfterSiblings(s, hash, prefix, [t]))
  {
    assert t in [t] && s.stack[..|prefix|] == prefix && [t][1..] == [];
    assert AfterSiblings(s, hash, prefix, [t]) == PassedBy(s, hash, t.sig);
  }

  /** On the way back no sibling is entered again. */
  lemma {:induction false} PassReturns(forest: seq<Tree>, hash: Path -> int, s: Snapshot, prefix: Path)
    requires forest != [] ==> Past(s, prefix, forest)
    ensures Pass(forest, hash, s) == Some(AfterSiblings(s, hash, prefix, forest))
  {
    if forest != [] {
      assert forest[0] in forest && s.stack[..|prefix|] == prefix && [forest[0]][1..] == [];
      var first := AfterSiblings(s, hash, prefix, [forest[0]]);
      TreeReturns(forest[0], hash, s, prefix);
      PassReturns(forest[1..], hash, first, prefix);
      AfterFirst(s, hash, prefix, forest);
    }
  }

  /** The re-run loop of `Context::run`. `runs` holds, for each run of the test body, the
      subcases it started. If and only if the hash tells, that is one run per leaf, in
      depth-first order, each starting exactly the subcases on its leaf's path; otherwise
      some leaf does not run. A body without subcases runs once. */
  method RunTestCase(forest: seq<Tree>, hash: Path -> int) returns (runs: seq<Path>)
    requires DistinctSiblings(forest)
    ensures runs == if forest == [] then [[]] else Visited(hash, forest, {}, 0)
    ensures forest != [] ==> (runs == Leaves(forest, []) <==> HashTells(hash, forest))
  {
    hide Leaves, Entries, Next, HashTells, DistinctSiblings;
    AllVisited(hash, forest);
    var cs := new ContextState(hash);
    runs := [];
    ghost var leaves, entries, at := Leaves(forest, []), Entries(forest, []), 0;
    LeavesSplit(forest, []);
    var runTest := true;
    while runTest
      invariant fresh(cs) && cs.hash == hash && at <= |leaves|
      invariant forest == [] ==> runs == if runTest then [] else [[]]
      invariant forest != [] ==> runs + Visited(hash, forest, cs.fullyTraversedSubcases, at) == Visited(hash, forest, {}, 0)
      invariant forest != [] ==> (runTest <==> at < |leaves|)
      invariant runTest ==> cs.nextSubcaseStack == if 0 < at < |leaves| then entries[at] else []
      decreases |leaves| - at, runTest
    {
      cs.BeginRun();
      ghost var before := cs.Now();
      if forest != [] {
        assert Bound(before, [], leaves, entries, at);
        PassArrives(forest, hash, before, [], at);
      }
      var ok := cs.Body(forest);
      assert ok;
      if forest != [] {
        assert cs.started == leaves[at];
        ghost var k := Next(hash, forest, [], cs.fullyTraversedSubcases, at);
        if k < |leaves| { PathsGoThrough(forest, [], k); }
        Regroup(runs, [leaves[at]], Visited(hash, forest, cs.fullyTraversedSubcases, k));
        at := k;
      }
      runs := runs + [cs.started];
      if cs.nextSubcaseStack == [] {
        runTest := false;
      }
    }
  }
}
