/** From a stream of begin and end events to self times in a flame graph (tools/tracegraph.py). */
module TraceAccounting {

  import opened Basics
  import opened FlameGraph

  type Path = seq<string>

  /** Trace events; `Blank` is the empty record that closes an unfinished file. */
  datatype Event = Begin(tid: int, name: string, ts: int) | End(tid: int, ts: int) | Other(tid: int) | Blank

  /** An event that has begun, and the time that its finished children took. */
  datatype Frame = Frame(name: string, ts: int, childTs: int)

  type Stack = seq<Frame>

  /** Time that a finished event spent in itself. */
  datatype Charge = Charge(tid: int, path: Path, ticks: int)

  // ---- one thread ----

  function Names(stack: Stack): (p: Path)
    ensures |p| == |stack|
  {
    if stack == [] then [] else Names(stack[..|stack| - 1]) + [stack[|stack| - 1].name]
  }

  /** An end event needs an open one; the program stops with an error otherwise. */
  predicate Fits(stack: Stack, e: Event) {
    e.End? ==> stack != []
  }

  function Next(stack: Stack, e: Event): Stack {
    match e
    case Begin(_, name, ts) => stack + [Frame(name, ts, 0)]
    case End(_, ts) => if stack == [] then [] else WithChildTime(stack[..|stack| - 1], ts - stack[|stack| - 1].ts)
    case _ => stack
  }

  /** The innermost open event learns how long a child of it took. */
  function WithChildTime(stack: Stack, time: int): Stack {
    if stack == [] then []
    else
      var parent := stack[|stack| - 1];
      stack[..|stack| - 1] + [parent.(childTs := parent.childTs + time)]
  }

  function Cost(stack: Stack, e: Event): seq<Charge> {
    if e.End? && stack != [] then
      var top := stack[|stack| - 1];
      [Charge(e.tid, Names(stack), e.ts - top.ts - top.childTs)]
    else []
  }

  function Run(stack: Stack, events: seq<Event>): Stack {
    if events == [] then stack else Next(Run(stack, events[..|events| - 1]), events[|events| - 1])
  }

  function Log(stack: Stack, events: seq<Event>): seq<Charge> {
    if events == [] then []
    else
      var init := events[..|events| - 1];
      Log(stack, init) + Cost(Run(stack, init), events[|events| - 1])
  }

  // ---- all threads ----

  predicate IsOf(e: Event, tid: int) {
    (e.Begin? || e.End?) && e.tid == tid
  }

  /** The begin and end events of one thread. */
  function Of(events: seq<Event>, tid: int): seq<Event> {
    if events == [] then []
    else
      var init, last := Of(events[..|events| - 1], tid), events[|events| - 1];
      if IsOf(last, tid) then init + [last] else init
  }

  /** The stack of the thread of `e` after `events`. */
  function StackFor(events: seq<Event>, e: Event): Stack {
    if e.Blank? then [] else Run([], Of(events, e.tid))
  }

  predicate NoUnderflow(events: seq<Event>) {
    events == [] ||
    (NoUnderflow(events[..|events| - 1]) && Fits(StackFor(events[..|events| - 1], events[|events| - 1]), events[|events| - 1]))
  }

  /** What the whole stream is charged, in order. */
  function WholeLog(events: seq<Event>): seq<Charge> {
    if events == [] then []
    else
      var init, last := events[..|events| - 1], events[|events| - 1];
      WholeLog(init) + Cost(StackFor(init, last), last)
  }

  function LogOf(log: seq<Charge>, tid: int): seq<Charge> {
    if log == [] then []
    else
      var init, last := LogOf(log[..|log| - 1], tid), log[|log| - 1];
      if last.tid == tid then init + [last] else init
  }

  function Sum(log: seq<Charge>): int {
    if log == [] then 0 else Sum(log[..|log| - 1]) + log[|log| - 1].ticks
  }

  function SumAt(log: seq<Charge>, path: Path): int {
    if log == [] then 0
    else SumAt(log[..|log| - 1], path) + if log[|log| - 1].path == path then log[|log| - 1].ticks else 0
  }

  /** However threads interleave, each is charged what it would be charged alone. */
  lemma {:induction false} ThreadsApart(events: seq<Event>, tid: int)
    ensures LogOf(WholeLog(events), tid) == Log([], Of(events, tid))
  {
    if events != [] {
      var init, last := events[..|events| - 1], events[|events| - 1];
      ThreadsApart(init, tid);
      var cost := Cost(StackFor(init, last), last);
      LogOfAppend(WholeLog(init), cost, tid);
      if IsOf(last, tid) {
        var own := Of(init, tid);
        assert (own + [last])[..|own|] == own;
        assert Log([], own) + [] == Log([], own);
      }
    }
  }

  lemma LogOfAppend(log: seq<Charge>, more: seq<Charge>, tid: int)
    requires |more| <= 1
    ensures LogOf(log + more, tid) == if more != [] && more[0].tid == tid then LogOf(log, tid) + more else LogOf(log, tid)
  {
    if more == [] {
      assert log + more == log;
    } else {
      assert (log + more)[..|log + more| - 1] == log;
    }
  }

  // ---- conservation ----

  /** The durations of the events that ended with no other one open. */
  function TopDurations(events: seq<Event>): int {
    if events == [] then 0
    else
      var init, last := events[..|events| - 1], events[|events| - 1];
      var stack := Run([], init);
      TopDurations(init) + if last.End? && |stack| == 1 then last.ts - stack[0].ts else 0
  }

  /** What open events have had from finished children. */
  function OpenChildTime(stack: Stack): int {
    if stack == [] then 0 else OpenChildTime(stack[..|stack| - 1]) + stack[|stack| - 1].childTs
  }

  /** At any moment, the self times are the durations of the finished outermost events and
      the children's times that open events still hold. */
  lemma {:induction false} SelfTimeConserved(events: seq<Event>)
    ensures Sum(Log([], events)) == TopDurations(events) + OpenChildTime(Run([], events))
  {
    hide Next, Cost, OpenChildTime;
    if events == [] {
      NothingOpen();
    } else {
      var init, last := events[..|events| - 1], events[|events| - 1];
      var stack := Run([], init);
      SelfTimeConserved(init);
      SumAppend(Log([], init), Cost(stack, last));
      StepConserves(stack, last);
    }
  }

  lemma NothingOpen()
    ensures OpenChildTime([]) == 0
  {
  }

  lemma StepConserves(stack: Stack, e: Event)
    ensures Sum(Cost(stack, e)) + OpenChildTime(stack)
         == OpenChildTime(Next(stack, e)) + if e.End? && |stack| == 1 then e.ts - stack[0].ts else 0
  {
    hide Names;
    if e.Begin? {
      assert (stack + [Frame(e.name, e.ts, 0)])[..|stack|] == stack;
    } else if e.End? && stack != [] {
      ChildTimeAdds(stack[..|stack| - 1], e.ts - stack[|stack| - 1].ts);
      assert Cost(stack, e)[..0] == [];
    }
  }

  lemma ChildTimeAdds(stack: Stack, time: int)
    ensures OpenChildTime(WithChildTime(stack, time)) == OpenChildTime(stack) + if stack == [] then 0 else time
  {
    if stack != [] {
      var next := WithChildTime(stack, time);
      assert next[..|next| - 1] == stack[..|stack| - 1];
    }
  }

  lemma {:induction false} SumAppend(log: seq<Charge>, more: seq<Charge>)
    ensures Sum(log + more) == Sum(log) + Sum(more)
  {
    if more == [] {
      assert log + more == log;
    } else {
      SumAppend(log, more[..|more| - 1]);
      assert (log + more)[..|log + more| - 1] == log + more[..|more| - 1];
    }
  }

  function SumOverThreads(log: seq<Charge>, tids: seq<int>): int {
    if tids == [] then 0 else SumOverThreads(log, tids[..|tids| - 1]) + Sum(LogOf(log, tids[|tids| - 1]))
  }

  lemma {:induction false} OneThreadMore(log: seq<Charge>, x: Charge, tids: seq<int>)
    requires NoDuplicates(tids)
    ensures SumOverThreads(log + [x], tids) == SumOverThreads(log, tids) + if x.tid in tids then x.ticks else 0
  {
    if tids != [] {
      var init, tid := tids[..|tids| - 1], tids[|tids| - 1];
      assert tids == init + [tid];
      OneThreadMore(log, x, init);
      LogOfAppend(log, [x], tid);
      SumAppend(LogOf(log, tid), [x]);
      assert Sum([x]) == x.ticks by { assert [x][..0] == []; }
    }
  }

  /** All charges together are those of the threads together. */
  lemma {:induction false} SumByThread(log: seq<Charge>, tids: seq<int>)
    requires NoDuplicates(tids) && forall i :: 0 <= i < |log| ==> log[i].tid in tids
    ensures Sum(log) == SumOverThreads(log, tids)
  {
    if log == [] {
      NothingOverThreads(tids);
    } else {
      var init, last := log[..|log| - 1], log[|log| - 1];
      SumByThread(init, tids);
      OneThreadMore(init, last, tids);
      assert log == init + [last];
    }
  }

  lemma {:induction false} NothingOverThreads(tids: seq<int>)
    ensures SumOverThreads([], tids) == 0
  {
    if tids != [] { NothingOverThreads(tids[..|tids| - 1]); }
  }

  // ---- nested spans ----

  datatype Span = Span(name: string, begin: int, end: int, inner: seq<Span>)

  /** The events of nested spans, in the order in which they happen. */
  function Flat(tid: int, spans: seq<Span>): seq<Event>
    decreases spans
  {
    if spans == [] then [] else FlatOne(tid, spans[0]) + Flat(tid, spans[1..])
  }

  function FlatOne(tid: int, s: Span): seq<Event>
    decreases s
  {
    [Begin(tid, s.name, s.begin)] + Flat(tid, s.inner) + [End(tid, s.end)]
  }

  function Durations(spans: seq<Span>): int {
    if spans == [] then 0 else spans[0].end - spans[0].begin + Durations(spans[1..])
  }

  /** Every span's own time: its duration without those of the spans right inside it. */
  function Selfs(tid: int, path: Path, spans: seq<Span>): seq<Charge>
    decreases spans
  {
    if spans == [] then [] else SelfOne(tid, path, spans[0]) + Selfs(tid, path, spans[1..])
  }

  function SelfOne(tid: int, path: Path, s: Span): seq<Charge>
    decreases s
  {
    var here := path + [s.name];
    Selfs(tid, here, s.inner) + [Charge(tid, here, s.end - s.begin - Durations(s.inner))]
  }

  lemma {:induction false} RunAppend(stack: Stack, a: seq<Event>, b: seq<Event>)
    ensures Run(stack, a + b) == Run(Run(stack, a), b)
    ensures Log(stack, a + b) == Log(stack, a) + Log(Run(stack, a), b)
  {
    hide Next, Cost;
    if b == [] {
      assert a + b == a;
    } else {
      var init, last := b[..|b| - 1], b[|b| - 1];
      RunAppend(stack, a, init);
      assert (a + b)[..|a + b| - 1] == a + init;
    }
  }

  lemma RunOne(stack: Stack, e: Event)
    ensures Run(stack, [e]) == Next(stack, e) && Log(stack, [e]) == Cost(stack, e)
  {
    assert [e][..0] == [];
  }

  lemma ChildTimeKeepsNames(stack: Stack, time: int, more: int)
    ensures Names(WithChildTime(stack, time)) == Names(stack)
    ensures WithChildTime(WithChildTime(stack, time), more) == WithChildTime(stack, time + more)
    ensures WithChildTime(stack, 0) == stack
  {
    if stack != [] {
      var next := WithChildTime(stack, time);
      assert next[..|next| - 1] == stack[..|stack| - 1];
      assert stack == stack[..|stack| - 1] + [stack[|stack| - 1]];
    }
  }

  /** Nested spans leave the stack as it was, but for the time their parent learns of, and
      are charged their own times. */
  lemma {:induction false} SpansAreCharged(stack: Stack, tid: int, spans: seq<Span>)
    ensures Run(stack, Flat(tid, spans)) == WithChildTime(stack, Durations(spans))
    ensures Log(stack, Flat(tid, spans)) == Selfs(tid, Names(stack), spans)
    decreases spans
  {
    hide Run, Log, WithChildTime, Names;
    if spans == [] {
      NothingRuns(stack);
      ChildTimeKeepsNames(stack, 0, 0);
    } else {
      var s, rest := spans[0], spans[1..];
      var time := s.end - s.begin;
      SpanIsCharged(stack, tid, s);
      var next := WithChildTime(stack, time);
      SpansAreCharged(next, tid, rest);
      ChildTimeKeepsNames(stack, time, Durations(rest));
      RunAppend(stack, FlatOne(tid, s), Flat(tid, rest));
    }
  }

  lemma NothingRuns(stack: Stack)
    ensures Run(stack, []) == stack && Log(stack, []) == []
  {
  }

  lemma {:induction false} SpanIsCharged(stack: Stack, tid: int, s: Span)
    ensures Run(stack, FlatOne(tid, s)) == WithChildTime(stack, s.end - s.begin)
    ensures Log(stack, FlatOne(tid, s)) == SelfOne(tid, Names(stack), s)
    decreases s
  {
    hide Run, Log, Flat, Selfs;
    var b, e := Begin(tid, s.name, s.begin), End(tid, s.end);
    var open := Next(stack, b);
    var within := WithChildTime(open, Durations(s.inner));
    RunOne(stack, b);
    SpansAreCharged(open, tid, s.inner);
    RunAppend(stack, [b], Flat(tid, s.inner));
    RunAppend(stack, [b] + Flat(tid, s.inner), [e]);
    RunOne(within, e);
    assert open[..|open| - 1] == stack;
    assert within[..|within| - 1] == stack && within[|within| - 1] == Frame(s.name, s.begin, Durations(s.inner));
    assert Names(open) == Names(stack) + [s.name];
    assert Names(within) == Names(open) by { ChildTimeKeepsNames(open, Durations(s.inner), 0); }
    assert Log(stack, [b]) == [];
    assert Cost(within, e) == [Charge(tid, Names(open), s.end - s.begin - Durations(s.inner))];
  }

  // ---- every balanced stream is one of nested spans ----

  /** Finished spans, and then an open one. */
  datatype Pending = Pending(before: seq<Span>, name: string, ts: int)

  function FlatPending(tid: int, open: seq<Pending>): seq<Event> {
    if open == [] then []
    else
      var last := open[|open| - 1];
      FlatPending(tid, open[..|open| - 1]) + Flat(tid, last.before) + [Begin(tid, last.name, last.ts)]
  }

  function Ended(p: Pending, inner: seq<Span>, e: Event): Span
    requires e.End?
  {
    Span(p.name, p.ts, e.ts, inner)
  }

  lemma {:induction false} FlatAppend(tid: int, spans: seq<Span>, s: Span)
    ensures Flat(tid, spans + [s]) == Flat(tid, spans) + FlatOne(tid, s)
  {
    hide FlatOne;
    if spans == [] {
      assert [] + [s] == [s];
      assert Flat(tid, [s]) == FlatOne(tid, s) + Flat(tid, []) == FlatOne(tid, s);
    } else {
      FlatAppend(tid, spans[1..], s);
      assert (spans + [s])[1..] == spans[1..] + [s];
    }
  }

  ghost predicate OneThread(events: seq<Event>, tid: int) {
    forall e :: e in events ==> (e.Begin? || e.End?) && e.tid == tid
  }

  lemma {:induction false} Nesting(events: seq<Event>, tid: int) returns (open: seq<Pending>, spans: seq<Span>)
    requires OneThread(events, tid) && NoUnderflow(events)
    ensures events == FlatPending(tid, open) + Flat(tid, spans)
    ensures |open| == |Run([], events)| && Of(events, tid) == events
  {
    open, spans := [], [];
    if events != [] {
      var init, last := events[..|events| - 1], events[|events| - 1];
      assert last in events;
      assert NoUnderflow(init) && Fits(StackFor(init, last), last);
      open, spans := Nesting(init, tid);
      OfOneThread(init, tid);
      OfOneThread(events, tid);
      NextLength(Run([], init), last);
      assert Run([], events) == Next(Run([], init), last);
      hide Flat, FlatOne, FlatPending, Run, Next, Of, NoUnderflow, OneThread;
      assert events == init + [last];
      if last.Begin? {
        BeginNests(tid, open, spans, last);
        open, spans := open + [Pending(spans, last.name, last.ts)], [];
      } else {
        var p := open[|open| - 1];
        EndNests(tid, open, spans, last);
        open, spans := open[..|open| - 1], p.before + [Ended(p, spans, last)];
      }
    }
  }

  lemma NextLength(stack: Stack, e: Event)
    requires e.Begin? || (e.End? && stack != [])
    ensures |Next(stack, e)| == if e.Begin? then |stack| + 1 else |stack| - 1
  {
  }

  lemma BeginNests(tid: int, open: seq<Pending>, spans: seq<Span>, e: Event)
    requires e.Begin? && e.tid == tid
    ensures FlatPending(tid, open) + Flat(tid, spans) + [e]
         == FlatPending(tid, open + [Pending(spans, e.name, e.ts)]) + Flat(tid, [])
  {
    var p := Pending(spans, e.name, e.ts);
    assert (open + [p])[..|open|] == open;
  }

  lemma EndNests(tid: int, open: seq<Pending>, spans: seq<Span>, e: Event)
    requires e.End? && e.tid == tid && open != []
    ensures FlatPending(tid, open) + Flat(tid, spans) + [e]
         == FlatPending(tid, open[..|open| - 1]) + Flat(tid, open[|open| - 1].before + [Ended(open[|open| - 1], spans, e)])
  {
    var p, rest := open[|open| - 1], FlatPending(tid, open[..|open| - 1]);
    var s := Ended(p, spans, e);
    FlatAppend(tid, p.before, s);
    var flat, before := Flat(tid, spans), Flat(tid, p.before);
    hide Flat, FlatPending;
    assert rest + before + [Begin(tid, p.name, p.ts)] + flat + [e] == rest + (before + ([Begin(tid, p.name, p.ts)] + flat + [e]));
  }

  /** A thread's events are those of nested spans exactly when no end lacks its begin and no
      event stays open. */
  lemma BalancedIsNested(events: seq<Event>, tid: int)
    requires OneThread(events, tid)
    ensures (NoUnderflow(events) && Run([], Of(events, tid)) == []) <==> exists spans :: events == Flat(tid, spans)
  {
    if NoUnderflow(events) && Run([], Of(events, tid)) == [] {
      var open, spans := Nesting(events, tid);
      assert events == Flat(tid, spans);
    }
    if spans :| events == Flat(tid, spans) {
      SpansAreCharged([], tid, spans);
      OfOneThread(events, tid);
      SpansFit([], tid, spans);
      FitsMeansNoUnderflow(events, tid);
    }
  }

  lemma {:induction false} OfOneThread(events: seq<Event>, tid: int)
    requires OneThread(events, tid)
    ensures Of(events, tid) == events
  {
    if events != [] {
      var init, last := events[..|events| - 1], events[|events| - 1];
      assert last in events;
      OfOneThread(init, tid);
    }
  }

  /** Every event finds the stack it needs. */
  ghost predicate AllFit(stack: Stack, events: seq<Event>) {
    forall i :: 0 <= i < |events| ==> Fits(Run(stack, events[..i]), events[i])
  }

  lemma FitAppend(stack: Stack, a: seq<Event>, b: seq<Event>)
    requires AllFit(stack, a) && AllFit(Run(stack, a), b)
    ensures AllFit(stack, a + b)
  {
    hide Run, Fits;
    var all := a + b;
    forall i | 0 <= i < |all| ensures Fits(Run(stack, all[..i]), all[i]) {
      if i < |a| {
        assert all[..i] == a[..i] && all[i] == a[i];
      } else {
        var j := i - |a|;
        RunAppend(stack, a, b[..j]);
        assert all[..i] == a + b[..j] && all[i] == b[j];
        assert Fits(Run(Run(stack, a), b[..j]), b[j]);
      }
    }
  }

  lemma {:induction false} SpansFit(stack: Stack, tid: int, spans: seq<Span>)
    ensures AllFit(stack, Flat(tid, spans))
    decreases spans
  {
    hide AllFit;
    if spans == [] {
      NothingFits(stack);
    } else {
      var s := spans[0];
      SpanFits(stack, tid, s);
      SpansFit(Run(stack, FlatOne(tid, s)), tid, spans[1..]);
      FitAppend(stack, FlatOne(tid, s), Flat(tid, spans[1..]));
    }
  }

  lemma NothingFits(stack: Stack)
    ensures AllFit(stack, [])
  {
  }

  lemma {:induction false} SpanFits(stack: Stack, tid: int, s: Span)
    ensures AllFit(stack, FlatOne(tid, s))
    decreases s
  {
    var b, e := Begin(tid, s.name, s.begin), End(tid, s.end);
    var open := Next(stack, b);
    var flat := Flat(tid, s.inner);
    SpansFit(open, tid, s.inner);
    RunOne(stack, b);
    assert AllFit(stack, [b]);
    FitAppend(stack, [b], flat);
    SpansAreCharged(open, tid, s.inner);
    RunAppend(stack, [b], flat);
    var within := Run(stack, [b] + flat);
    assert within == WithChildTime(open, Durations(s.inner)) && within != [];
    assert Run(within, [e][..0]) == within;
    assert AllFit(within, [e]);
    FitAppend(stack, [b] + flat, [e]);
  }

  lemma {:induction false} FitsMeansNoUnderflow(events: seq<Event>, tid: int)
    requires OneThread(events, tid) && AllFit([], events)
    ensures NoUnderflow(events)
  {
    if events != [] {
      var init, last := events[..|events| - 1], events[|events| - 1];
      assert last in events && OneThread(init, tid);
      assert AllFit([], init) by {
        forall i | 0 <= i < |init| ensures Fits(Run([], init[..i]), init[i]) {
          assert init[..i] == events[..i];
          assert Fits(Run([], events[..i]), events[i]);
        }
      }
      FitsMeansNoUnderflow(init, tid);
      OfOneThread(init, tid);
      assert Fits(Run([], events[..|events| - 1]), last);
    }
  }

  // ---- the tree of self times ----

  /** Every node has the self times charged to its path, and every charge has a node. */
  ghost predicate Accounts(nodes: seq<Node>, parents: seq<nat>, log: seq<Charge>)
    requires IsTree(nodes, parents)
  {
    && OwnSum(nodes, |nodes|) == Sum(log)
    && (forall k :: 0 <= k < |nodes| ==> OwnRight(nodes, parents, log, k))
    && forall i :: 0 <= i < |log| ==> HasNode(nodes, parents, log[i].path)
  }

  ghost predicate OwnRight(nodes: seq<Node>, parents: seq<nat>, log: seq<Charge>, k: nat)
    requires IsTree(nodes, parents) && k < |nodes|
  {
    nodes[k].own == SumAt(log, PathTo(nodes, parents, k))
  }

  ghost predicate HasNode(nodes: seq<Node>, parents: seq<nat>, path: Path)
    requires IsTree(nodes, parents)
  {
    exists k :: 0 <= k < |nodes| && PathTo(nodes, parents, k) == path
  }

  lemma {:induction false} NothingAt(log: seq<Charge>, path: Path)
    requires forall i :: 0 <= i < |log| ==> log[i].path != path
    ensures SumAt(log, path) == 0
  {
    if log != [] { NothingAt(log[..|log| - 1], path); }
  }

  lemma {:induction false} OwnSumSame(nodes: seq<Node>, nodes': seq<Node>, n: nat)
    requires n <= |nodes| && n <= |nodes'| && forall k :: 0 <= k < n ==> nodes'[k].own == nodes[k].own
    ensures OwnSum(nodes', n) == OwnSum(nodes, n)
  {
    if n > 0 { OwnSumSame(nodes, nodes', n - 1); }
  }

  lemma {:induction false} OwnSumAdds(nodes: seq<Node>, c: nat, amount: int, n: nat)
    requires c < |nodes| && n <= |nodes|
    ensures OwnSum(nodes[c := nodes[c].(own := nodes[c].own + amount)], n) == OwnSum(nodes, n) + if c < n then amount else 0
  {
    if n > 0 { OwnSumAdds(nodes, c, amount, n - 1); }
  }

  /** A new node has no charge yet. */
  lemma GrownAccounts(nodes: seq<Node>, parents: seq<nat>, k: nat, name: string, log: seq<Charge>)
    requires IsTree(nodes, parents) && k < |nodes| && IsTree(WithChild(nodes, k, name), parents + [k])
    requires Accounts(nodes, parents, log)
    ensures Accounts(WithChild(nodes, k, name), parents + [k], log)
  {
    hide IsTree, SumAt, Sum, OwnSum;
    var nodes', parents' := WithChild(nodes, k, name), parents + [k];
    var new_ := |nodes|;
    TreeLengths(nodes, parents);
    forall i | 0 <= i < |log| ensures HasNode(nodes', parents', log[i].path) && log[i].path != PathTo(nodes', parents', new_) {
      assert HasNode(nodes, parents, log[i].path);
      var j :| 0 <= j < |nodes| && PathTo(nodes, parents, j) == log[i].path;
      PathKept(nodes, parents, nodes', parents', j);
      if log[i].path == PathTo(nodes', parents', new_) { PathsTellApart(nodes', parents', j, new_); }
    }
    forall j | 0 <= j < |nodes'| ensures OwnRight(nodes', parents', log, j) {
      if j < |nodes| {
        assert OwnRight(nodes, parents, log, j);
        PathKept(nodes, parents, nodes', parents', j);
      } else {
        NothingAt(log, PathTo(nodes', parents', new_));
      }
    }
    OwnSumSame(nodes, nodes', |nodes|);
    LastOwn(nodes');
  }

  lemma LastOwn(nodes: seq<Node>)
    requires nodes != []
    ensures OwnSum(nodes, |nodes|) == OwnSum(nodes, |nodes| - 1) + nodes[|nodes| - 1].own
  {
  }

  lemma TreeLengths(nodes: seq<Node>, parents: seq<nat>)
    requires IsTree(nodes, parents)
    ensures |parents| == |nodes| > 0
  {
  }

  lemma ChargedAccounts(nodes: seq<Node>, parents: seq<nat>, c: nat, x: Charge, log: seq<Charge>, nodes': seq<Node>)
    requires IsTree(nodes, parents) && c < |nodes| && PathTo(nodes, parents, c) == x.path && Accounts(nodes, parents, log)
    requires nodes' == nodes[c := nodes[c].(own := nodes[c].own + x.ticks)] && IsTree(nodes', parents)
    ensures Accounts(nodes', parents, log + [x])
  {
    TreeLengths(nodes, parents);
    hide IsTree, SumAt, OwnSum, Sum;
    forall k | 0 <= k < |nodes'| ensures OwnRight(nodes', parents, log + [x], k) {
      assert OwnRight(nodes, parents, log, k);
      PathKept(nodes, parents, nodes', parents, k);
      OneChargeMore(log, x, PathTo(nodes, parents, k));
      if k != c && PathTo(nodes, parents, k) == x.path { PathsTellApart(nodes, parents, k, c); }
    }
    forall i | 0 <= i < |log + [x]| ensures HasNode(nodes', parents, (log + [x])[i].path) {
      var j := c;
      if i < |log| {
        assert HasNode(nodes, parents, log[i].path);
        j :| 0 <= j < |nodes| && PathTo(nodes, parents, j) == log[i].path;
      }
      PathKept(nodes, parents, nodes', parents, j);
      assert PathTo(nodes', parents, j) == (log + [x])[i].path;
    }
    OwnSumAdds(nodes, c, x.ticks, |nodes|);
    OneChargeMore(log, x, x.path);
  }

  lemma OneChargeMore(log: seq<Charge>, x: Charge, path: Path)
    ensures SumAt(log + [x], path) == SumAt(log, path) + if x.path == path then x.ticks else 0
    ensures Sum(log + [x]) == Sum(log) + x.ticks
  {
    assert (log + [x])[..|log|] == log;
  }

  // ---- the program ----

  /** The node of the innermost open event. */
  method NodeFor(graph: Graph, stack: Stack, ghost log: seq<Charge>) returns (node: nat)
    requires graph.Valid() && Accounts(graph.nodes, graph.parents, log)
    modifies graph
    ensures graph.Valid() && Accounts(graph.nodes, graph.parents, log)
    ensures node < |graph.nodes| && PathTo(graph.nodes, graph.parents, node) == Names(stack)
    ensures graph.nodes[0].depth == old(graph.nodes)[0].depth && graph.nodes[0].offset == old(graph.nodes)[0].offset
  {
    hide IsTree, Accounts;
    TreeLengths(graph.nodes, graph.parents);
    node := 0;
    for i := 0 to |stack|
      invariant graph.Valid() && Accounts(graph.nodes, graph.parents, log) && |graph.nodes| > 0
      invariant node < |graph.nodes| && PathTo(graph.nodes, graph.parents, node) == Names(stack[..i])
      invariant graph.nodes[0].depth == old(graph.nodes)[0].depth && graph.nodes[0].offset == old(graph.nodes)[0].offset
    {
      ghost var nodes, parents, from := graph.nodes, graph.parents, node;
      TreeLengths(nodes, parents);
      node := graph.Child(node, stack[i].name);
      if graph.nodes != nodes { GrownAccounts(nodes, parents, from, stack[i].name, log); }
      PathKept(nodes, parents, graph.nodes, graph.parents, from);
      assert stack[..i + 1][..i] == stack[..i];
    }
    assert stack[..|stack|] == stack;
  }

  /** The event loop: every node gets the self time of its path. It stops with an error at an
      end event that has no begin. */
  method Trace(events: seq<Event>) returns (graph: Graph, ok: bool)
    ensures fresh(graph) && graph.Valid()
    ensures ok <==> NoUnderflow(events)
    ensures ok ==> Accounts(graph.nodes, graph.parents, WholeLog(events))
    ensures graph.nodes[0].depth == 0 && graph.nodes[0].offset == 0
  {
    hide IsTree, Accounts, PathTo, Run, Of, WholeLog, NoUnderflow, Tracks, WithChild, StackFor;
    graph := new Graph();
    StartAccounts(graph.nodes, graph.parents);
    assert events[..0] == [];
    var stacks: map<int, Stack> := map[];
    ok := true;
    for i := 0 to |events|
      invariant fresh(graph) && graph.Valid() && |graph.nodes| > 0
      invariant Accounts(graph.nodes, graph.parents, WholeLog(events[..i])) && NoUnderflow(events[..i])
      invariant Tracks(stacks, events[..i])
      invariant graph.nodes[0].depth == 0 && graph.nodes[0].offset == 0
    {
      var e := events[i];
      ghost var stacksBefore := stacks;
      StepOn(stacks, events, i, e);
      match e {
        case Begin(tid, name, ts) =>
          stacks := stacks[tid := StackIn(stacks, tid) + [Frame(name, ts, 0)]];
        case End(tid, ts) =>
          var stack := StackIn(stacks, tid);
          ghost var log := WholeLog(events[..i]);
          var node := NodeFor(graph, stack, log);
          if stack == [] {
            UnderflowStays(events, i + 1);
            ok := false;
            TreeLengths(graph.nodes, graph.parents);
            return;
          }
          var begin := stack[|stack| - 1];
          var raw := ts - begin.ts;
          var ticks := raw - begin.childTs;
          ghost var before := graph.nodes;
          graph.Add(node, ticks);
          ChargedAccounts(before, graph.parents, node, Charge(tid, Names(stack), ticks), log, graph.nodes);
          stacks := stacks[tid := WithChildTime(stack[..|stack| - 1], raw)];
        case Other(tid) =>
          if tid !in stacks { stacks := stacks[tid := []]; }
        case Blank =>
      }
      TracksOn(stacksBefore, stacks, events, i, e);
    }
    assert events[..|events|] == events;
  }

  /** A thread that is not known yet has nothing open. */
  function StackIn(stacks: map<int, Stack>, tid: int): Stack {
    if tid in stacks then stacks[tid] else []
  }

  lemma StartAccounts(nodes: seq<Node>, parents: seq<nat>)
    requires IsTree(nodes, parents) && nodes == [Node("", 0, [], 0, 0, 0)]
    ensures Accounts(nodes, parents, WholeLog([])) && NoUnderflow([]) && Tracks(map[], [])
  {
    assert OwnSum(nodes, 0) == 0;
  }

  /** The stacks are those of the threads, each on its own. */
  ghost predicate Tracks(stacks: map<int, Stack>, events: seq<Event>) {
    forall tid :: StackIn(stacks, tid) == Run([], Of(events, tid))
  }

  lemma StepOn(stacks: map<int, Stack>, events: seq<Event>, i: nat, e: Event)
    requires i < |events| && e == events[i] && Tracks(stacks, events[..i])
    ensures var stack := if e.Begin? || e.End? then StackIn(stacks, e.tid) else [];
            && WholeLog(events[..i + 1]) == (if e.End? then WholeLog(events[..i]) + Cost(stack, e) else WholeLog(events[..i]))
            && (NoUnderflow(events[..i + 1]) <==> NoUnderflow(events[..i]) && Fits(stack, e))
  {
    assert events[..i + 1][..i] == events[..i];
    assert WholeLog(events[..i]) + [] == WholeLog(events[..i]);
  }

  lemma TracksOn(stacks: map<int, Stack>, stacks': map<int, Stack>, events: seq<Event>, i: nat, e: Event)
    requires i < |events| && e == events[i] && Tracks(stacks, events[..i])
    requires forall tid :: StackIn(stacks', tid) == if IsOf(e, tid) then Next(StackIn(stacks, tid), e) else StackIn(stacks, tid)
    ensures Tracks(stacks', events[..i + 1])
  {
    hide Next;
    assert events[..i + 1][..i] == events[..i];
    forall tid ensures StackIn(stacks', tid) == Run([], Of(events[..i + 1], tid)) {
      var own := Of(events[..i], tid);
      assert StackIn(stacks, tid) == Run([], own);
      if IsOf(e, tid) { assert (own + [e])[..|own|] == own; }
    }
  }

  lemma {:induction false} UnderflowStays(events: seq<Event>, i: nat)
    requires i <= |events| && !NoUnderflow(events[..i])
    ensures !NoUnderflow(events)
    decreases |events| - i
  {
    if i == |events| {
      assert events[..i] == events;
    } else {
      assert events[..i + 1][..i] == events[..i];
      UnderflowStays(events, i + 1);
    }
  }

  /** The flame graph of a trace: the root is as wide as all self times together. */
  method Draw(events: seq<Event>) returns (graph: Graph, ok: bool)
    ensures fresh(graph) && graph.Valid() && (ok <==> NoUnderflow(events))
    ensures ok ==> Accounts(graph.nodes, graph.parents, WholeLog(events)) && LaidOut(graph.nodes)
    ensures ok ==> graph.nodes[0].width == Sum(WholeLog(events)) && graph.nodes[0].depth == 0 && graph.nodes[0].offset == 0
  {
    hide IsTree, Accounts, LaidOut, NoUnderflow;
    graph, ok := Trace(events);
    if ok {
      ghost var before := graph.nodes;
      TreeLengths(before, graph.parents);
      graph.Layout();
      LayoutKeepsAccounts(before, graph.nodes, graph.parents, WholeLog(events));
      RootIsTotal(graph.nodes, graph.parents);
      TotalIsSum(graph.nodes, graph.parents, WholeLog(events));
    }
  }

  lemma TotalIsSum(nodes: seq<Node>, parents: seq<nat>, log: seq<Charge>)
    requires IsTree(nodes, parents) && Accounts(nodes, parents, log)
    ensures OwnSum(nodes, |nodes|) == Sum(log)
  {
  }

  lemma LayoutKeepsAccounts(nodes: seq<Node>, nodes': seq<Node>, parents: seq<nat>, log: seq<Charge>)
    requires IsTree(nodes, parents) && IsTree(nodes', parents) && SameShape(nodes, nodes') && Accounts(nodes, parents, log)
    ensures Accounts(nodes', parents, log)
  {
    TreeLengths(nodes, parents);
    hide IsTree, SumAt, Sum;
    forall k | 0 <= k < |nodes| ensures nodes'[k].name == nodes[k].name && nodes'[k].own == nodes[k].own {
      assert SameNode(nodes[k], nodes'[k]);
    }
    forall k | 0 <= k < |nodes'| ensures OwnRight(nodes', parents, log, k) {
      assert OwnRight(nodes, parents, log, k);
      PathKept(nodes, parents, nodes', parents, k);
    }
    forall i | 0 <= i < |log| ensures HasNode(nodes', parents, log[i].path) {
      assert HasNode(nodes, parents, log[i].path);
      var k :| 0 <= k < |nodes| && PathTo(nodes, parents, k) == log[i].path;
      PathKept(nodes, parents, nodes', parents, k);
    }
    OwnSumSame(nodes, nodes', |nodes|);
  }

  // ---- nested spans on every thread ----

  /** Each thread's events are those of its nested spans. */
  ghost predicate Nested(events: seq<Event>, forests: map<int, seq<Span>>) {
    && (forall e :: e in events && (e.Begin? || e.End?) ==> e.tid in forests)
    && forall tid :: tid in forests ==> NestedOn(events, tid, forests[tid])
  }

  ghost predicate NestedOn(events: seq<Event>, tid: int, spans: seq<Span>) {
    Of(events, tid) == Flat(tid, spans)
  }

  ghost predicate Orderly(spans: seq<Span>, from: int, to: int)
    decreases spans
  {
    if spans == [] then from <= to
    else OrderlyOne(spans[0]) && from <= spans[0].begin && Orderly(spans[1..], spans[0].end, to)
  }

  ghost predicate OrderlyOne(s: Span)
    decreases s
  {
    Orderly(s.inner, s.begin, s.end)
  }

  /** Time does not run backwards. */
  ghost predicate Forward(spans: seq<Span>) {
    spans == [] || Orderly(spans, spans[0].begin, spans[|spans| - 1].end)
  }

  ghost predicate AllForward(forests: map<int, seq<Span>>) {
    forall tid :: tid in forests ==> Forward(forests[tid])
  }

  /** Spans side by side take no longer than the time around them, so no own time is negative. */
  lemma {:induction false} OrderlySelfs(tid: int, path: Path, spans: seq<Span>, from: int, to: int)
    requires Orderly(spans, from, to)
    ensures 0 <= Durations(spans) <= to - from
    ensures forall x :: x in Selfs(tid, path, spans) ==> x.ticks >= 0
    decreases spans
  {
    if spans != [] {
      var s := spans[0];
      OrderlySelfOne(tid, path, s);
      OrderlySelfs(tid, path, spans[1..], s.end, to);
    }
  }

  lemma {:induction false} OrderlySelfOne(tid: int, path: Path, s: Span)
    requires OrderlyOne(s)
    ensures 0 <= Durations(s.inner) <= s.end - s.begin
    ensures forall x :: x in SelfOne(tid, path, s) ==> x.ticks >= 0
    decreases s
  {
    OrderlySelfs(tid, path + [s.name], s.inner, s.begin, s.end);
  }

  lemma {:induction false} SelfsAddUp(tid: int, path: Path, spans: seq<Span>)
    ensures Sum(Selfs(tid, path, spans)) == Durations(spans)
    decreases spans
  {
    if spans != [] {
      SelfAddsUp(tid, path, spans[0]);
      SelfsAddUp(tid, path, spans[1..]);
      SumAppend(SelfOne(tid, path, spans[0]), Selfs(tid, path, spans[1..]));
    }
  }

  lemma {:induction false} SelfAddsUp(tid: int, path: Path, s: Span)
    ensures Sum(SelfOne(tid, path, s)) == s.end - s.begin
    decreases s
  {
    var here := path + [s.name];
    SelfsAddUp(tid, here, s.inner);
    OneChargeMore(Selfs(tid, here, s.inner), Charge(tid, here, s.end - s.begin - Durations(s.inner)), here);
  }

  lemma {:induction false} ChargesOfThread(log: seq<Charge>, i: nat)
    requires i < |log|
    ensures log[i] in LogOf(log, log[i].tid)
  {
    if i < |log| - 1 { ChargesOfThread(log[..|log| - 1], i); }
  }

  lemma {:induction false} ChargesHaveThreads(events: seq<Event>, i: nat)
    requires i < |WholeLog(events)|
    ensures exists e :: e in events && e.End? && e.tid == WholeLog(events)[i].tid
  {
    var init, last := events[..|events| - 1], events[|events| - 1];
    if i < |WholeLog(init)| {
      ChargesHaveThreads(init, i);
    } else {
      assert last in events;
    }
  }

  lemma {:induction false} FitByThread(events: seq<Event>)
    requires forall tid :: AllFit([], Of(events, tid))
    ensures NoUnderflow(events)
  {
    if events != [] {
      var init, last := events[..|events| - 1], events[|events| - 1];
      assert events == init + [last];
      forall tid ensures AllFit([], Of(init, tid)) { FitsBefore(init, last, tid); }
      FitByThread(init);
      if last.End? {
        var own := Of(init, last.tid);
        assert AllFit([], Of(events, last.tid)) && Of(events, last.tid) == own + [last];
        assert (own + [last])[..|own|] == own;
        assert Fits(Run([], (own + [last])[..|own|]), (own + [last])[|own|]);
      }
    }
  }

  lemma FitsBefore(init: seq<Event>, last: Event, tid: int)
    requires AllFit([], Of(init + [last], tid))
    ensures AllFit([], Of(init, tid))
  {
    hide Run;
    assert (init + [last])[..|init|] == init;
    var own, all := Of(init, tid), Of(init + [last], tid);
    forall i | 0 <= i < |own| ensures Fits(Run([], own[..i]), own[i]) {
      assert own[..i] == all[..i];
      assert Fits(Run([], all[..i]), all[i]);
    }
  }

  function DurationsOver(tids: seq<int>, forests: map<int, seq<Span>>): int
    requires forall i :: 0 <= i < |tids| ==> tids[i] in forests
  {
    if tids == [] then 0 else DurationsOver(tids[..|tids| - 1], forests) + Durations(forests[tids[|tids| - 1]])
  }

  lemma {:induction false} NestedOver(events: seq<Event>, forests: map<int, seq<Span>>, tids: seq<int>)
    requires Nested(events, forests) && forall i :: 0 <= i < |tids| ==> tids[i] in forests
    ensures SumOverThreads(WholeLog(events), tids) == DurationsOver(tids, forests)
  {
    if tids != [] {
      var tid := tids[|tids| - 1];
      NestedOver(events, forests, tids[..|tids| - 1]);
      ThreadIsCharged(events, forests, tid);
      SelfsAddUp(tid, [], forests[tid]);
    }
  }

  /** What a thread is charged in the midst of all others. */
  lemma ThreadIsCharged(events: seq<Event>, forests: map<int, seq<Span>>, tid: int)
    requires Nested(events, forests) && tid in forests
    ensures LogOf(WholeLog(events), tid) == Selfs(tid, [], forests[tid])
  {
    assert NestedOn(events, tid, forests[tid]);
    ThreadsApart(events, tid);
    SpansAreCharged([], tid, forests[tid]);
  }

  /** With nested spans on every thread, however the threads interleave, the self times add up
      to the durations of the outermost spans, and every end finds its begin. */
  lemma NestedTotal(events: seq<Event>, forests: map<int, seq<Span>>, tids: seq<int>)
    requires Nested(events, forests) && NoDuplicates(tids)
    requires forall i :: 0 <= i < |tids| ==> tids[i] in forests
    requires forall tid :: tid in forests ==> tid in tids
    ensures NoUnderflow(events) && Sum(WholeLog(events)) == DurationsOver(tids, forests)
  {
    hide Log, SumOverThreads;
    forall tid ensures AllFit([], Of(events, tid)) {
      if tid in forests {
        assert NestedOn(events, tid, forests[tid]);
        SpansFit([], tid, forests[tid]);
      } else {
        NotAThread(events, tid);
      }
    }
    FitByThread(events);
    forall i | 0 <= i < |WholeLog(events)| ensures WholeLog(events)[i].tid in tids { ChargesHaveThreads(events, i); }
    SumByThread(WholeLog(events), tids);
    NestedOver(events, forests, tids);
  }

  lemma {:induction false} NotAThread(events: seq<Event>, tid: int)
    requires forall e :: e in events ==> !IsOf(e, tid)
    ensures Of(events, tid) == []
  {
    if events != [] {
      assert events[|events| - 1] in events;
      NotAThread(events[..|events| - 1], tid);
    }
  }

  lemma {:induction false} SumAtNotNegative(log: seq<Charge>, path: Path)
    requires forall i :: 0 <= i < |log| ==> log[i].ticks >= 0
    ensures SumAt(log, path) >= 0
  {
    if log != [] { SumAtNotNegative(log[..|log| - 1], path); }
  }

  /** Times that do not run backwards give a flame graph with no negative part. */
  lemma NestedIsNotNegative(events: seq<Event>, forests: map<int, seq<Span>>, nodes: seq<Node>, parents: seq<nat>)
    requires Nested(events, forests) && AllForward(forests)
    requires IsTree(nodes, parents) && Accounts(nodes, parents, WholeLog(events))
    ensures NoneNegative(nodes)
  {
    hide IsTree, PathTo;
    var log := WholeLog(events);
    forall i | 0 <= i < |log| ensures log[i].ticks >= 0 {
      var tid := log[i].tid;
      ChargesHaveThreads(events, i);
      ChargesOfThread(log, i);
      ThreadIsCharged(events, forests, tid);
      var spans := forests[tid];
      assert Forward(spans);
      if spans != [] { OrderlySelfs(tid, [], spans, spans[0].begin, spans[|spans| - 1].end); }
    }
    forall k | 0 <= k < |nodes| ensures nodes[k].own >= 0 {
      assert OwnRight(nodes, parents, log, k);
      assert forall i :: 0 <= i < |log| ==> log[i].ticks >= 0;
      SumAtNotNegative(log, PathTo(nodes, parents, k));
    }
  }
}
