/** The sharded counter of doctest (extern/doctest.h, `MultiLaneAtomic`). */
module MultiLane {

  const LANES: nat := 32

  /** One atomic addition, by whatever thread owns the lane. */
  datatype Add = Add(lane: nat, arg: int)

  ghost predicate OnLanes(adds: seq<Add>) {
    forall i :: 0 <= i < |adds| ==> adds[i].lane < LANES
  }

  function Sum(xs: seq<int>): int {
    if xs == [] then 0 else Sum(xs[..|xs| - 1]) + xs[|xs| - 1]
  }

  lemma {:induction false} SumUpdate(xs: seq<int>, i: nat, x: int)
    requires i < |xs|
    ensures Sum(xs[i := x]) == Sum(xs) - xs[i] + x
  {
    var last := |xs| - 1;
    if i < last {
      SumUpdate(xs[..last], i, x);
      assert xs[i := x][..last] == xs[..last][i := x];
    } else {
      assert xs[i := x][..last] == xs[..last];
    }
  }

  lemma {:induction false} SumMonotone(xs: seq<int>, ys: seq<int>)
    requires |xs| == |ys| && forall i :: 0 <= i < |xs| ==> xs[i] <= ys[i]
    ensures Sum(xs) <= Sum(ys)
  {
    if xs != [] { SumMonotone(xs[..|xs| - 1], ys[..|ys| - 1]); }
  }

  // ---- what happens between the reads of a load ----

  /** The lanes after some additions. */
  function After(lanes: seq<int>, adds: seq<Add>): (r: seq<int>)
    requires |lanes| == LANES
    ensures |r| == LANES
  {
    if adds == [] then lanes
    else
      var before, last := After(lanes, adds[..|adds| - 1]), adds[|adds| - 1];
      if last.lane < LANES then before[last.lane := before[last.lane] + last.arg] else before
  }

  /** The sum of what a load reads from lane `i` on, with the additions of `between[j]` done
      before lane `j` is read. */
  function Reads(lanes: seq<int>, between: seq<seq<Add>>, i: nat): int
    requires |lanes| == LANES && i <= LANES <= |between|
    decreases LANES - i
  {
    if i == LANES then 0
    else
      var now := After(lanes, between[i]);
      now[i] + Reads(now, between, i + 1)
  }

  /** The lanes when the load is over. */
  function AfterAll(lanes: seq<int>, between: seq<seq<Add>>, i: nat): (r: seq<int>)
    requires |lanes| == LANES && i <= |between|
    ensures |r| == LANES
    decreases |between| - i
  {
    if i == |between| then lanes else AfterAll(After(lanes, between[i]), between, i + 1)
  }

  ghost predicate NotNegative(adds: seq<Add>) {
    forall i :: 0 <= i < |adds| ==> adds[i].arg >= 0
  }

  ghost predicate NoneNegative(between: seq<seq<Add>>) {
    forall i :: 0 <= i < |between| ==> NotNegative(between[i])
  }

  ghost predicate Below(xs: seq<int>, ys: seq<int>) {
    |xs| == |ys| && forall i :: 0 <= i < |xs| ==> xs[i] <= ys[i]
  }

  lemma {:induction false} AfterGrows(lanes: seq<int>, adds: seq<Add>)
    requires |lanes| == LANES && NotNegative(adds)
    ensures Below(lanes, After(lanes, adds))
  {
    if adds != [] {
      assert adds[|adds| - 1].arg >= 0;
      AfterGrows(lanes, adds[..|adds| - 1]);
    }
  }

  lemma {:induction false} AfterAllGrows(lanes: seq<int>, between: seq<seq<Add>>, i: nat)
    requires |lanes| == LANES && i <= |between| && NoneNegative(between)
    ensures Below(lanes, AfterAll(lanes, between, i))
    decreases |between| - i
  {
    if i < |between| {
      AfterGrows(lanes, between[i]);
      AfterAllGrows(After(lanes, between[i]), between, i + 1);
    }
  }

  /** What is read from lane `i` on lies between what those lanes held and what they hold at
      the end. */
  lemma {:induction false} ReadsBetween(lanes: seq<int>, between: seq<seq<Add>>, i: nat)
    requires |lanes| == LANES && i <= LANES <= |between| && NoneNegative(between)
    ensures Sum(lanes[i..]) <= Reads(lanes, between, i) <= Sum(AfterAll(lanes, between, i)[i..])
    decreases LANES - i
  {
    if i < LANES {
      var now := After(lanes, between[i]);
      var end := AfterAll(now, between, i + 1);
      AfterGrows(lanes, between[i]);
      AfterAllGrows(now, between, i + 1);
      ReadsBetween(now, between, i + 1);
      FirstOut(now, i);
      FirstOut(end, i);
      SumMonotone(lanes[i..], now[i..]);
    }
  }

  lemma {:induction false} FirstOut(xs: seq<int>, i: nat)
    requires i < |xs|
    ensures Sum(xs[i..]) == xs[i] + Sum(xs[i + 1..])
  {
    var n := |xs| - 1;
    if i == n {
      assert xs[i..][..0] == xs[i + 1..] == [];
    } else {
      FirstOut(xs[..n], i);
      assert xs[i..][..n - i] == xs[..n][i..] && xs[i + 1..][..n - i - 1] == xs[..n][i + 1..];
    }
  }

  /** With additions of any sign the promise fails: a unit that moves from a lane already read
      to one not read yet is seen twice. */
  lemma MovedUnitIsSeenTwice(lanes: seq<int>, between: seq<seq<Add>>)
    requires |lanes| == LANES && |between| == LANES + 1
    requires lanes[0] == 1 && forall i :: 0 < i < LANES ==> lanes[i] == 0
    requires between[1] == [Add(0, -1), Add(1, 1)] && forall i :: 0 <= i <= LANES && i != 1 ==> between[i] == []
    ensures Sum(lanes) == 1 && Sum(AfterAll(lanes, between, 0)) == 1 && Reads(lanes, between, 0) == 2
  {
    var moved := After(lanes, between[1]);
    var zeros := lanes[0 := 0];
    assert After(lanes, [Add(0, -1)]) == zeros by { assert [Add(0, -1)][..0] == []; }
    assert between[1][..1] == [Add(0, -1)];
    assert moved == zeros[1 := 1];
    Quiet(moved, between, 2);
    assert Reads(lanes, between, 0) == 1 + Reads(lanes, between, 1);
    assert Reads(lanes, between, 1) == 1 + Reads(moved, between, 2);
    assert AfterAll(lanes, between, 0) == AfterAll(lanes, between, 1) == AfterAll(moved, between, 2);
    ZerosSum(zeros);
    SumUpdate(zeros, 0, 1);
    assert lanes == zeros[0 := 1];
    SumUpdate(zeros, 1, 1);
    FirstOut(moved, 0);
    FirstOut(moved, 1);
    assert moved[0..] == moved;
  }

  lemma {:induction false} Quiet(lanes: seq<int>, between: seq<seq<Add>>, i: nat)
    requires |lanes| == LANES && i <= LANES && |between| == LANES + 1 && forall j :: i <= j <= LANES ==> between[j] == []
    ensures Reads(lanes, between, i) == Sum(lanes[i..]) && AfterAll(lanes, between, i) == lanes
    decreases LANES - i
  {
    if i < LANES {
      Quiet(lanes, between, i + 1);
      FirstOut(lanes, i);
    } else {
      assert AfterAll(lanes, between, LANES + 1) == lanes;
    }
  }

  lemma {:induction false} ZerosSum(xs: seq<int>)
    requires forall i :: 0 <= i < |xs| ==> xs[i] == 0
    ensures Sum(xs) == 0
  {
    if xs != [] { ZerosSum(xs[..|xs| - 1]); }
  }

  /** The bounds that a load is to keep: the totals when it begins and when it ends. */
  ghost predicate Bounded(lanes: seq<int>, between: seq<seq<Add>>)
    requires |lanes| == LANES && |between| == LANES + 1
  {
    Sum(lanes) <= Reads(lanes, between, 0) <= Sum(AfterAll(lanes, between, 0))
  }

  function Flatten(between: seq<seq<Add>>): seq<Add> {
    if between == [] then [] else Flatten(between[..|between| - 1]) + between[|between| - 1]
  }

  /** The additions, in some order, happen before, between and after the reads. */
  ghost predicate Interleaves(between: seq<seq<Add>>, adds: seq<Add>) {
    |between| == LANES + 1 && multiset(Flatten(between)) == multiset(adds)
  }

  /** The load keeps its bounds however some additions are interleaved with its reads, if and
      only if none of them is negative. */
  lemma BoundsNeedGrowth(lanes: seq<int>, adds: seq<Add>)
    requires |lanes| == LANES && OnLanes(adds)
    ensures (forall between :: Interleaves(between, adds) ==> |between| == LANES + 1 && Bounded(lanes, between)) <==> NotNegative(adds)
  {
    hide NotNegative, Interleaves, Bounded;
    if NotNegative(adds) {
      forall between | Interleaves(between, adds) ensures |between| == LANES + 1 && Bounded(lanes, between) {
        AllFromAdds(between, adds);
        GrowthIsBounded(lanes, between);
      }
    } else {
      var between := NegativeBreaks(lanes, adds);
    }
  }

  lemma GrowthIsBounded(lanes: seq<int>, between: seq<seq<Add>>)
    requires |lanes| == LANES && |between| == LANES + 1 && NoneNegative(between)
    ensures Bounded(lanes, between)
  {
    ReadsBetween(lanes, between, 0);
    var end := AfterAll(lanes, between, 0);
    assert lanes[0..] == lanes && end[0..] == end;
  }

  lemma NegativeBreaks(lanes: seq<int>, adds: seq<Add>) returns (between: seq<seq<Add>>)
    requires |lanes| == LANES && OnLanes(adds) && !NotNegative(adds)
    ensures Interleaves(between, adds) && |between| == LANES + 1 && !Bounded(lanes, between)
  {
    var k :| 0 <= k < |adds| && adds[k].arg < 0;
    var others := adds[..k] + adds[k + 1..];
    between := JustBefore(adds[k], others);
    hide Reads, Flatten, Sum, AfterAll, JustBefore;
    NegativeIsSeen(lanes, adds[k], others);
    PulledOut(adds, k);
  }

  lemma PulledOut<T>(xs: seq<T>, k: nat)
    requires k < |xs|
    ensures multiset([xs[k]] + (xs[..k] + xs[k + 1..])) == multiset(xs)
  {
    assert xs == xs[..k] + ([xs[k]] + xs[k + 1..]);
  }

  lemma AllFromAdds(between: seq<seq<Add>>, adds: seq<Add>)
    requires Interleaves(between, adds) && NotNegative(adds)
    ensures |between| == LANES + 1 && NoneNegative(between)
  {
    forall i, j | 0 <= i < |between| && 0 <= j < |between[i]| ensures between[i][j].arg >= 0 {
      InFlatten(between, i, between[i][j]);
      assert between[i][j] in multiset(adds);
    }
  }

  lemma {:induction false} InFlatten(between: seq<seq<Add>>, i: nat, add: Add)
    requires i < |between| && add in between[i]
    ensures add in Flatten(between) && add in multiset(Flatten(between))
  {
    var n := |between| - 1;
    if i < n { InFlatten(between[..n], i, add); }
  }

  /** One addition just before its lane is read, all others after the load. */
  function JustBefore(add: Add, others: seq<Add>): (between: seq<seq<Add>>)
    requires add.lane < LANES
    ensures |between| == LANES + 1 && between[add.lane] == [add] && between[LANES] == others
    ensures forall i :: 0 <= i < LANES && i != add.lane ==> between[i] == []
  {
    seq(LANES + 1, i => if i == add.lane then [add] else if i == LANES then others else [])
  }

  lemma NegativeIsSeen(lanes: seq<int>, add: Add, others: seq<Add>)
    requires |lanes| == LANES && add.lane < LANES && add.arg < 0
    ensures var between := JustBefore(add, others);
            Reads(lanes, between, 0) < Sum(lanes) && Flatten(between) == [add] + others
  {
    var between := JustBefore(add, others);
    hide JustBefore, Reads, Sum, Flatten;
    ReadsOne(lanes, between, add, 0);
    assert lanes[0..] == lanes;
    FlattenOne(between, add, LANES);
    FlattenLast(between, LANES + 1);
    assert between[..LANES + 1] == between;
  }

  lemma FlattenLast(between: seq<seq<Add>>, n: nat)
    requires 0 < n <= |between|
    ensures Flatten(between[..n]) == Flatten(between[..n - 1]) + between[n - 1]
  {
    assert between[..n][..n - 1] == between[..n - 1];
  }

  lemma {:induction false} FlattenOne(between: seq<seq<Add>>, add: Add, n: nat)
    requires |between| == LANES + 1 && add.lane < LANES && n <= LANES
    requires forall i :: 0 <= i < LANES ==> between[i] == if i == add.lane then [add] else []
    ensures Flatten(between[..n]) == if add.lane < n then [add] else []
  {
    if n == 0 {
      assert between[..n] == [];
    } else {
      hide Flatten;
      FlattenOne(between, add, n - 1);
      FlattenLast(between, n);
    }
  }

  lemma AfterOne(lanes: seq<int>, add: Add)
    requires |lanes| == LANES && add.lane < LANES
    ensures After(lanes, [add]) == lanes[add.lane := lanes[add.lane] + add.arg] && After(lanes, []) == lanes
  {
    assert [add][..0] == [];
  }

  lemma {:induction false} ReadsOne(lanes: seq<int>, between: seq<seq<Add>>, add: Add, i: nat)
    requires |lanes| == LANES && |between| == LANES + 1 && add.lane < LANES && i <= LANES
    requires forall j :: 0 <= j < LANES ==> between[j] == if j == add.lane then [add] else []
    ensures Reads(lanes, between, i) == Sum(lanes[i..]) + if i <= add.lane then add.arg else 0
    decreases LANES - i
  {
    if i < LANES {
      var now := After(lanes, between[i]);
      AfterOne(lanes, add);
      assert now == if i == add.lane then lanes[i := lanes[i] + add.arg] else lanes;
      ReadsOne(now, between, add, i + 1);
      FirstOut(lanes, i);
      assert now[i + 1..] == lanes[i + 1..];
    }
  }

  // ---- additions during a store ----

  /** The sum of the additions to the lanes before lane `i`. */
  function ArgsBelow(adds: seq<Add>, i: nat): int {
    if adds == [] then 0
    else
      var last := adds[|adds| - 1];
      ArgsBelow(adds[..|adds| - 1], i) + if last.lane < i then last.arg else 0
  }

  /** What a store leaves of the additions in the first `n` gaps: those to lanes that it had
      written by then. */
  function Kept(between: seq<seq<Add>>, n: nat): int
    requires n <= |between|
  {
    if n == 0 then 0 else Kept(between, n - 1) + ArgsBelow(between[n - 1], n - 1)
  }

  /** What the additions come to. */
  ghost function Added(adds: seq<Add>): int {
    if adds == [] then 0 else adds[0].arg + Added(adds[1..])
  }

  lemma {:induction false} AddedBoth(a: seq<Add>, b: seq<Add>)
    ensures Added(a + b) == Added(a) + Added(b)
  {
    if a == [] {
      assert a + b == b;
    } else {
      AddedBoth(a[1..], b);
      assert (a + b)[1..] == a[1..] + b;
    }
  }

  /** No lane gets more than all lanes together. */
  lemma {:induction false} ArgsGrow(adds: seq<Add>, i: nat)
    requires NotNegative(adds)
    ensures 0 <= ArgsBelow(adds, i) <= Added(adds)
  {
    if adds != [] {
      var init, last := adds[..|adds| - 1], adds[|adds| - 1];
      ArgsGrow(init, i);
      AddedBoth(init, [last]);
      assert adds == init + [last] && [last][1..] == [];
    }
  }

  lemma {:induction false} AfterAddsBelow(lanes: seq<int>, adds: seq<Add>, i: nat)
    requires |lanes| == LANES && i <= LANES && OnLanes(adds)
    ensures Sum(After(lanes, adds)[..i]) == Sum(lanes[..i]) + ArgsBelow(adds, i)
  {
    if adds != [] {
      var init, last := adds[..|adds| - 1], adds[|adds| - 1];
      AfterAddsBelow(lanes, init, i);
      var before := After(lanes, init);
      assert last.lane < LANES;
      if last.lane < i {
        SumUpdate(before[..i], last.lane, before[last.lane] + last.arg);
        assert After(lanes, adds)[..i] == before[..i][last.lane := before[last.lane] + last.arg];
      } else {
        assert After(lanes, adds)[..i] == before[..i];
      }
    }
  }

  lemma {:induction false} KeptIsBetween(between: seq<seq<Add>>, n: nat)
    requires n <= |between| <= LANES + 1 && NoneNegative(between)
    ensures 0 <= Kept(between, n) <= Added(Flatten(between[..n]))
  {
    if n > 0 {
      KeptIsBetween(between, n - 1);
      ArgsGrow(between[n - 1], n - 1);
      FlattenLast(between, n);
      AddedBoth(Flatten(between[..n - 1]), between[n - 1]);
    }
  }

  lemma {:induction false} NothingKept(between: seq<seq<Add>>, n: nat)
    requires n <= |between| && forall i :: 0 <= i < n ==> between[i] == []
    ensures Kept(between, n) == 0
  {
    if n > 0 { NothingKept(between, n - 1); }
  }

  // ---- the counter ----

  /** The lanes of the threads, the same for all counters. */
  class ThreadLanes {
    var laneCounter: nat
    var laneOf: map<int, nat>

    ghost predicate Valid()
      reads this
    {
      forall t :: t in laneOf ==> laneOf[t] < LANES
    }

    constructor ()
      ensures Valid() && laneCounter == 0 && laneOf == map[]
    {
      laneCounter, laneOf := 0, map[];
    }

    /** A thread gets the next lane in turn when it first comes, and keeps it. */
    method MyLane(thread: int) returns (lane: nat)
      requires Valid()
      modifies this
      ensures Valid() && lane < 32 && thread in laneOf && laneOf[thread] == lane
      ensures forall t :: t in old(laneOf) ==> t in laneOf && laneOf[t] == old(laneOf)[t]
      ensures thread !in old(laneOf) ==> lane == old(laneCounter) % 32 && laneCounter == old(laneCounter) + 1
      ensures thread in old(laneOf) ==> laneCounter == old(laneCounter)
    {
      if thread !in laneOf {
        laneOf := laneOf[thread := laneCounter % LANES];
        laneCounter := laneCounter + 1;
      }
      lane := laneOf[thread];
    }
  }

  class MultiLaneAtomic {
    const threads: ThreadLanes
    var lanes: array<int>

    ghost predicate Valid()
      reads this, lanes, threads
    {
      lanes.Length == LANES && threads.Valid()
    }

    constructor (threads: ThreadLanes)
      requires threads.Valid()
      ensures Valid() && fresh(lanes) && lanes.Length == 32 && Sum(lanes[..]) == 0 && this.threads == threads
    {
      this.threads := threads;
      lanes := new int[LANES](_ => 0);
      new;
      ZerosSum(lanes[..]);
    }

    /** `fetch_add`: what it returns is what the thread's own lane held, not the total. */
    method FetchAdd(thread: int, arg: int) returns (before: int)
      requires Valid()
      modifies lanes, threads
      ensures Valid() && thread in threads.laneOf && before == old(lanes[..])[threads.laneOf[thread]]
      ensures lanes[..] == old(lanes[..])[threads.laneOf[thread] := before + arg]
      ensures Sum(lanes[..]) == Sum(old(lanes[..])) + arg
    {
      var lane := threads.MyLane(thread);
      before := lanes[lane];
      SumUpdate(lanes[..], lane, before + arg);
      lanes[lane] := before + arg;
    }

    /** `load` while other threads add: with no negative addition the result lies between the
        total when it begins and the total when it ends, and it is the total if nothing is
        added meanwhile. */
    method Load(between: seq<seq<Add>>) returns (result: int)
      requires Valid() && |between| == LANES + 1 && forall i :: 0 <= i < |between| ==> OnLanes(between[i])
      modifies lanes
      ensures Valid() && lanes[..] == AfterAll(old(lanes[..]), between, 0)
      ensures result == Reads(old(lanes[..]), between, 0)
      ensures NoneNegative(between) ==> Sum(old(lanes[..])) <= result <= Sum(lanes[..])
      ensures (forall i :: 0 <= i < |between| ==> between[i] == []) ==> result == Sum(lanes[..]) && lanes[..] == old(lanes[..])
    {
      ghost var start := lanes[..];
      result := 0;
      for i := 0 to LANES
        invariant Valid()
        invariant result + Reads(lanes[..], between, i) == Reads(start, between, 0)
        invariant AfterAll(lanes[..], between, i) == AfterAll(start, between, 0)
      {
        Interfere(between[i]);
        result := result + lanes[i];
      }
      Interfere(between[LANES]);
      assert lanes[..] == AfterAll(lanes[..], between, LANES + 1);
      if NoneNegative(between) {
        ReadsBetween(start, between, 0);
        assert start[0..] == start && lanes[..][0..] == lanes[..];
      }
      if forall i :: 0 <= i < |between| ==> between[i] == [] {
        Quiet(start, between, 0);
        assert start[0..] == start;
      }
    }

    method Interfere(adds: seq<Add>)
      requires Valid() && OnLanes(adds)
      modifies lanes
      ensures Valid() && lanes[..] == After(old(lanes[..]), adds)
    {
      ghost var start := lanes[..];
      for i := 0 to |adds|
        invariant Valid() && lanes[..] == After(start, adds[..i])
      {
        assert adds[..i + 1][..i] == adds[..i];
        lanes[adds[i].lane] := lanes[adds[i].lane] + adds[i].arg;
      }
      assert adds[..|adds|] == adds;
    }

    /** `store` while other threads add: the total is the value and those additions that came
        to a lane after it was written; the others are lost. */
    method Store(desired: int, between: seq<seq<Add>>)
      requires Valid() && |between| == LANES + 1 && forall i :: 0 <= i < |between| ==> OnLanes(between[i])
      modifies lanes
      ensures Valid() && Sum(lanes[..]) == desired + Kept(between, LANES + 1)
      ensures NoneNegative(between) ==> desired <= Sum(lanes[..]) <= desired + Added(Flatten(between))
      ensures (forall i :: 0 <= i < |between| ==> between[i] == []) ==>
                forall i :: 0 <= i < LANES ==> lanes[i] == if i == 0 then desired else 0
    {
      var value := desired;
      for i := 0 to LANES
        invariant Valid() && value == (if i == 0 then desired else 0)
        invariant Sum(lanes[..][..i]) + value == desired + Kept(between, i)
        invariant (forall j :: 0 <= j < |between| ==> between[j] == []) ==>
                    forall j :: 0 <= j < i ==> lanes[j] == if j == 0 then desired else 0
      {
        AfterAddsBelow(lanes[..], between[i], i);
        Interfere(between[i]);
        ghost var before := lanes[..];
        lanes[i] := value;
        assert lanes[..][..i + 1] == before[..i] + [value];
        assert (before[..i] + [value])[..i] == before[..i];
        value := 0;
      }
      AfterAddsBelow(lanes[..], between[LANES], LANES);
      Interfere(between[LANES]);
      assert lanes[..][..LANES] == lanes[..];
      if NoneNegative(between) {
        KeptIsBetween(between, LANES + 1);
        assert between[..LANES + 1] == between;
      }
    }
  }

  /** A store, additions by any threads, and a load with nobody else about. */
  method StoreThenAdd(counter: MultiLaneAtomic, desired: int, adds: seq<(int, int)>) returns (result: int)
    requires counter.Valid()
    modifies counter.lanes, counter.threads
    ensures result == desired + ArgSum(adds)
  {
    var quiet := seq(LANES + 1, _ => []);
    counter.Store(desired, quiet);
    NothingKept(quiet, LANES + 1);
    for i := 0 to |adds|
      invariant counter.Valid()
      invariant Sum(counter.lanes[..]) == desired + ArgSum(adds[..i])
    {
      assert adds[..i + 1][..i] == adds[..i];
      var _ := counter.FetchAdd(adds[i].0, adds[i].1);
    }
    assert adds[..|adds|] == adds;
    result := counter.Load(quiet);
  }

  function ArgSum(adds: seq<(int, int)>): int {
    if adds == [] then 0 else ArgSum(adds[..|adds| - 1]) + adds[|adds| - 1].1
  }
}
