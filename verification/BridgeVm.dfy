/** The protected VM bridge (native-build/bridge.cpp): host calls, callbacks, releases and
    module loading around Lua scripts that may do anything and fail at any point. */
module BridgeVm {
  import opened Basics
  import opened BridgeWire
  import opened BridgeRefs
  import opened BridgeCodec
  import opened BridgeHost

  type Name = nat  // the modules of the manifest, numbered

  /** How a piece of script ended: normally, with an error that `pcall` can catch, or
      broken off for good. */
  datatype Status = Normal | Error | Broken

  /** What the managed callback sends back. */
  datatype Reply = Reply(error: bool, valid: bool, bytes: seq<byte>)

  /** The steps of a script that matter to the bridge. A `Run` step is any other Lua code. */
  datatype Op =
    | HostOp(args: seq<Value>, reply: Reply)
    | RequireOp(name: Name)
    | PcallOp(body: seq<Op>)
    | Run

  /** The reference tables, and what has passed between bridge and host. */
  datatype Books = Books(refs: Refs, log: Log)

  /** Every reference is held by the host, or still pending and then not; and a number that the
      host has given back is neither live nor ahead. */
  ghost predicate Ledger(b: Books) {
    var held := Held(b.log);
    && Consistent(b.refs) && held <= b.refs.functions.Keys
    && (forall id :: id in b.refs.functions ==> id in held || id in b.refs.pending)
    && (forall id :: id in b.refs.pending ==> id !in held)
    && NeverReused(b.log) && (forall id: nat :: Retired(b.log, id) ==> id < b.refs.next && id !in b.refs.functions)
  }

  /** Nothing is pending: the live references are exactly those that the host holds, and the
      two tables are exact inverses. */
  ghost predicate Clean(b: Books) {
    Ledger(b) && Exact(b.refs) && b.refs.pending == [] && b.refs.functions.Keys == Held(b.log)
  }

  /** Later in the same call, or after it, the host has kept all its references as they were,
      has been sent only new ones, and no number has been used a second time. */
  ghost predicate LaterBooks(b: Books, b': Books) {
    && b.refs.next <= b'.refs.next
    && (forall id :: id in Held(b.log) && id in b.refs.functions ==>
          id in b'.refs.functions && b'.refs.functions[id] == b.refs.functions[id])
    && (forall id :: id in b'.refs.functions ==> id in b.refs.functions || b.refs.next <= id)
    && b.log <= b'.log && (forall i :: |b.log| <= i < |b'.log| ==> b'.log[i].Sent?)
    && Held(b.log) <= Held(b'.log) && (forall id :: id in Held(b'.log) ==> id in Held(b.log) || b.refs.next <= id)
  }

  lemma LaterBooksTransitive(a: Books, b: Books, c: Books)
    requires LaterBooks(a, b) && LaterBooks(b, c)
    ensures LaterBooks(a, c)
  {
  }

  /** Taking back what is pending leaves the host's references, and nothing else. */
  lemma RollbackBooks(b: Books)
    requires Ledger(b)
    ensures Clean(b.(refs := RolledBack(b.refs))) && LaterBooks(b, b.(refs := RolledBack(b.refs)))
  {
    RollbackIsExact(b.refs);
  }

  /** Encoding, however it ends, only adds pending references to the host's. */
  lemma EncodingBooks(b: Books, refs: Refs)
    requires Clean(b) && Consistent(refs) && Grows(b.refs, refs)
    ensures Ledger(b.(refs := refs)) && LaterBooks(b, b.(refs := refs))
  {
  }

  /** With an encoded frame the host is told of just those live references that it does not
      hold yet. */
  lemma EncodedNumbers(b: Books, refs: Refs, values: seq<Value>)
    requires Clean(b) && Exact(refs) && Grows(b.refs, refs) && NewFrom(b.refs.ids, refs.ids, ValuesFunctions(values))
    requires FrameFits(values) && forall v :: v in values ==> Known(v, refs.ids)
    ensures refs.functions.Keys == Held(b.log) + FrameNumbers(FrameBytes(values, refs.ids))
    ensures Sends(FrameBytes(values, refs.ids), values, refs.ids)
  {
    hide FrameFits, Known, FrameNumbers, Held, NeverReused;
    var sent := NumbersOf(ValuesFunctions(values), refs.ids);
    SentNumbers(values, refs.ids);
    forall id | id in refs.functions ensures id in Held(b.log) + sent {
      assert Interned(refs, id);
      var f := refs.functions[id].identity;
      if f in b.refs.ids { assert b.refs.ids[f] == id; } else { assert f in ValuesFunctions(values); }
    }
  }

  /** The frame of these values, with references to just the functions in them. */
  ghost predicate Sends(frame: seq<byte>, values: seq<Value>, ids: map<Identity, nat>) {
    frame == FrameBytes(values, ids) && FrameNumbers(frame) == NumbersOf(ValuesFunctions(values), ids)
  }

  /** The latest event is that these values have been sent. */
  ghost predicate Latest(log: Log, values: seq<Value>, ids: map<Identity, nat>) {
    log != [] && log[|log| - 1].Sent? && Sends(log[|log| - 1].frame, values, ids)
  }

  /** The books once a frame has gone out. */
  ghost function HandedOver(b: Books, frame: seq<byte>): Books {
    Books(b.refs.(pending := []), b.log + [Sent(frame)])
  }

  lemma CleanParts(b: Books)
    requires Clean(b)
    ensures Ledger(b) && Exact(b.refs) && b.refs.pending == [] && b.refs.functions.Keys == Held(b.log)
  {
  }

  /** A frame that tells of all that is pending settles the books. */
  lemma HandOverBooks(b: Books, b': Books, frame: seq<byte>)
    requires Clean(b) && Ledger(b') && Exact(b'.refs) && LaterBooks(b, b')
    requires b'.refs.functions.Keys == Held(b'.log) + FrameNumbers(frame)
    ensures Clean(HandedOver(b', frame)) && LaterBooks(b, HandedOver(b', frame))
  {
    var after := HandedOver(b', frame);
    HeldAfter(b'.log, Sent(frame));
    OneMoreFrame(b'.log, frame);
    hide Held, FrameNumbers, NeverReused, Retired;
    forall id | id in after.refs.functions ensures Interned(after.refs, id) { assert Interned(b'.refs, id); }
  }

  /** The rest: the call budget, and the modules. `started` are the module bodies started
      during the current call, `completed` those completed in the lifetime of the VM, `events`
      all that has passed between bridge and host. */
  datatype Progress = Progress(calls: nat, callbacks: nat, events: nat, expired: bool,
                               loaded: set<Name>, loading: set<Name>, started: seq<Name>, completed: seq<Name>, deepest: nat)

  /** No module body starts twice in a call or completes twice at all, and callbacks stay
      within the limit, beyond which the call is marked as expired. */
  ghost predicate Sound(p: Progress, modules: set<Name>, callLimit: nat) {
    && p.loaded + p.loading <= modules && p.loaded !! p.loading
    && NoDuplicates(p.started)
    && NoDuplicates(p.completed) && (forall n :: n in p.completed <==> n in p.loaded)
    && p.deepest <= |modules|
    && p.callbacks <= p.calls && p.callbacks <= callLimit && (p.calls > callLimit ==> p.expired)
  }

  /** During a call, every module whose body has started is loaded or marked. */
  ghost predicate InCall(p: Progress, modules: set<Name>, callLimit: nat) {
    Sound(p, modules, callLimit) && forall n :: n in p.started ==> n in p.loaded + p.loading
  }

  ghost predicate LaterProgress(p: Progress, p': Progress) {
    && p.calls <= p'.calls && p.callbacks <= p'.callbacks && (p.expired ==> p'.expired && p'.callbacks == p.callbacks)
    && p'.events - p.events == p'.callbacks - p.callbacks
    && p.loaded <= p'.loaded && p.loading <= p'.loading
    && p.started <= p'.started && p.completed <= p'.completed
  }

  lemma LaterProgressTransitive(a: Progress, b: Progress, c: Progress)
    requires LaterProgress(a, b) && LaterProgress(b, c)
    ensures LaterProgress(a, c)
  {
  }

  lemma NothingIsUndone(p: Progress, q: Progress)
    requires LaterProgress(p, q)
    ensures p.started <= q.started && p.loaded <= q.loaded
  {
  }

  /** What a call is aimed at: an exported function, or a module's export. */
  datatype Target = Reference(id: nat) | Export(module_: Name)

  /** A reference can be called while the host holds it, and a module once it is loaded. */
  predicate Callable(target: Target, held: set<nat>, loaded: set<Name>) {
    match target
    case Reference(id) => id in held
    case Export(module_) => module_ in loaded
  }

  /** A reference given back between calls. */
  lemma ReleaseBooks(b: Books, b': Books, id: nat)
    requires Clean(b) && id in b.refs.functions && Exact(b'.refs) && b'.refs.pending == [] && b'.refs.next == b.refs.next
    requires b'.refs.functions == b.refs.functions - {id} && b'.log == b.log + [GivenBack(id)]
    ensures Clean(b')
  {
    HeldAfter(b.log, GivenBack(id));
    OneMoreReturn(b.log, id);
    hide Held, FrameNumbers, NeverReused, Retired;
  }

  /** The counters of a call that starts. */
  ghost function Reset(p: Progress): Progress {
    p.(calls := 0, callbacks := 0, expired := false, started := [])
  }

  /** A call that starts, and one that is over. */
  lemma CallBounds(p: Progress, modules: set<Name>, callLimit: nat)
    ensures Sound(p, modules, callLimit) ==> InCall(Reset(p), modules, callLimit)
    ensures InCall(p, modules, callLimit) ==> Sound(p.(loading := {}), modules, callLimit)
  {
  }

  lemma CallbacksAreFew(p: Progress, modules: set<Name>, callLimit: nat)
    requires Sound(p, modules, callLimit)
    ensures p.callbacks <= callLimit
  {
  }

  /** How much has passed in all is bounded by nothing. */
  lemma EventsDoNotMatter(p: Progress, q: Progress, modules: set<Name>, callLimit: nat)
    requires q == p.(events := q.events)
    ensures InCall(p, modules, callLimit) <==> InCall(q, modules, callLimit)
    ensures Sound(p, modules, callLimit) <==> Sound(q, modules, callLimit)
  {
  }

  lemma NothingChanged(b: Books, p: Progress)
    requires Ledger(b)
    ensures LaterBooks(b, b) && LaterProgress(p, p)
  {
  }

  /** One more attempt to call the host: refused beyond the limit, and for good. */
  ghost function Attempted(p: Progress, callLimit: nat): Progress {
    p.(calls := p.calls + 1, expired := p.expired || p.calls + 1 > callLimit)
  }

  /** An attempt within the limit may lead to one callback. */
  lemma AttemptIsSound(p: Progress, callback: bool, modules: set<Name>, callLimit: nat)
    requires InCall(p, modules, callLimit) && (callback ==> p.calls < callLimit && !p.expired)
    ensures var n := if callback then 1 else 0;
            var q := Attempted(p, callLimit).(callbacks := p.callbacks + n, events := p.events + n);
            InCall(q, modules, callLimit) && LaterProgress(p, q)
  {
  }

  /** The modules whose bodies may still be started in this call. */
  ghost function Available(p: Progress, modules: set<Name>): set<Name> {
    modules - p.loaded - p.loading
  }

  lemma AvailableIsKnown(p: Progress, name: Name, modules: set<Name>)
    requires name in Available(p, modules)
    ensures name in modules
  {
  }

  /** A body starting: its module is marked first. */
  ghost function Starting(p: Progress, name: Name, nesting: nat): Progress {
    p.(loading := p.loading + {name}, started := p.started + [name], deepest := if p.deepest > nesting then p.deepest else nesting + 1)
  }

  lemma StartingIsSound(p: Progress, name: Name, nesting: nat, modules: set<Name>, callLimit: nat)
    requires InCall(p, modules, callLimit) && name in Available(p, modules) && nesting <= |p.loading|
    ensures InCall(Starting(p, name, nesting), modules, callLimit) && LaterProgress(p, Starting(p, name, nesting))
    ensures nesting + 1 <= |p.loading + {name}| && Available(Starting(p, name, nesting), modules) < Available(p, modules)
  {
    CardinalityOfSubset(p.loading + {name}, modules);
    assert name !in p.started;
  }

  /** The body has completed: its module is loaded for good. */
  ghost function Completing(p: Progress, name: Name): Progress {
    p.(loaded := p.loaded + {name}, loading := p.loading - {name}, completed := p.completed + [name])
  }

  lemma CompletingIsSound(p: Progress, name: Name, q: Progress, nesting: nat, modules: set<Name>, callLimit: nat)
    requires name !in p.loading && LaterProgress(Starting(p, name, nesting), q) && InCall(q, modules, callLimit)
    ensures InCall(Completing(q, name), modules, callLimit) && LaterProgress(p, Completing(q, name))
  {
    assert name in q.loading && name !in q.completed;
  }

  lemma NothingYet(callLimit: nat)
    ensures Clean(Books(Refs(map[], map[], [], 1), [])) && Sound(Progress(0, 0, 0, false, {}, {}, [], [], 0), {}, callLimit)
  {
  }

  class HostVm {
    const codec: Codec
    const payloadLimit: nat
    const callLimit: nat
    var modules: map<Name, seq<byte>>  // their sources
    var calls: nat
    var expired: bool
    var loaded: set<Name>   // modules with a reference to their value
    var loading: set<Name>
    ghost var log: Log
    ghost var callbacks: nat
    ghost var started: seq<Name>
    ghost var completed: seq<Name>
    ghost var deepest: nat

    constructor (payloadLimit: nat, referenceLimit: nat, callLimit: nat, handleLimit: nat)
      requires 4 <= payloadLimit <= MAX_WIRE
      ensures fresh(codec) && codec.referenceLimit == referenceLimit && codec.handleLimit == handleLimit
      ensures this.payloadLimit == payloadLimit && this.callLimit == callLimit
      ensures Idle() && log == [] && modules == map[]
    {
      codec := new Codec(referenceLimit, handleLimit);
      this.payloadLimit, this.callLimit := payloadLimit, callLimit;
      modules, calls, expired, loaded, loading := map[], 0, false, {}, {};
      log, callbacks, started, completed, deepest := [], 0, [], [], 0;
      new;
      hide Clean, Sound;
      NothingYet(callLimit);
      assert Account() == Books(Refs(map[], map[], [], 1), []) && Stage() == Progress(0, 0, 0, false, {}, {}, [], [], 0);
    }

    ghost function Account(): Books
      reads this, codec
    {
      Books(codec.Tables(), log)
    }

    ghost function Stage(): Progress
      reads this
    {
      Progress(calls, callbacks, |log|, expired, loaded, loading, started, completed, deepest)
    }

    ghost predicate MidCall()
      reads this, codec
    {
      && Ledger(Account()) && InCall(Stage(), modules.Keys, callLimit)
      && |codec.functions| <= codec.referenceLimit && |codec.handles| <= codec.handleLimit
    }

    /** Between calls. */
    ghost predicate Idle()
      reads this, codec
    {
      && Clean(Account()) && Sound(Stage(), modules.Keys, callLimit) && loading == {}
      && |codec.functions| <= codec.referenceLimit && |codec.handles| <= codec.handleLimit
    }

    /** The watchdog: past the deadline (or once expired) it breaks or fails the script. */
    method Interrupt() returns (st: Status)
      modifies `expired
      ensures st.Normal? ==> expired == old(expired)
      ensures !st.Normal? ==> expired
      ensures old(expired) ==> !st.Normal?
    {
      st := Normal;
      var pastDeadline := *;
      if expired || pastDeadline {
        expired := true;
        if * { st := Broken; } else { st := Error; }
      }
    }

    /** Takes back the references that did not reach the host. */
    method TakeBack()
      requires Ledger(Account())
      modifies codec`functions, codec`functionIds, codec`pendingRefs
      ensures Clean(Account()) && LaterBooks(old(Account()), Account()) && |codec.functions| <= |old(codec.functions)|
      ensures codec.functions == map id | id in old(codec.functions) && id in Held(log) :: old(codec.functions)[id]
      ensures old(codec.pendingRefs) == [] ==> codec.functionIds == old(codec.functionIds)
    {
      RollbackBooks(Account());
      codec.Rollback();
    }

    /** Encodes the arguments of a callback and sends them to the host, with references to just
        the functions in them. On failure a C++ exception is caught and rolled back; a Lua error
        jumps past that. */
    method Deliver(args: seq<Value>) returns (ok: bool, payload: seq<byte>)
      requires Clean(Account()) && |codec.functions| <= codec.referenceLimit
      modifies codec`functions, codec`functionIds, codec`pendingRefs, codec`nextReference, codec`nodes, `log, `callbacks
      ensures Ledger(Account()) && LaterBooks(old(Account()), Account()) && |codec.functions| <= codec.referenceLimit
      ensures ok ==> Clean(Account()) && Sends(payload, args, codec.functionIds) && |payload| <= payloadLimit
      ensures log == old(log) + (if ok then [Sent(payload)] else []) && callbacks == old(callbacks) + if ok then 1 else 0
    {
      hide Consistent, Exact, Grows, Ledger, Clean, LaterBooks, NewFrom, FrameFits;
      ghost var clean := Account();
      CleanParts(clean);
      var r;
      r, payload := codec.EncodeFrame(args);
      ok := r.Done? && |payload| <= payloadLimit;
      ghost var refs := codec.Tables();
      EncodingBooks(clean, refs);
      if ok {
        EncodedNumbers(clean, refs, args);
        HandOverBooks(clean, clean.(refs := refs), payload);
        log, callbacks := log + [Sent(payload)], callbacks + 1;
        codec.HandOver();
        assert Account() == HandedOver(clean.(refs := refs), payload);
        CleanParts(Account());
      } else {
        if * {
          TakeBack();
          LaterBooksTransitive(clean, clean.(refs := refs), Account());
          CleanParts(Account());
        }
      }
    }

    /** Decodes what the callback sent back. */
    method Answer(reply: Reply) returns (st: Status)
      requires Clean(Account()) && |codec.handles| <= codec.handleLimit
      modifies codec`input, codec`cursor, codec`nodes, codec`handles, codec`functions, codec`functionIds, codec`pendingRefs
      ensures Clean(Account()) && LaterBooks(old(Account()), Account())
      ensures |codec.handles| <= codec.handleLimit && |codec.functions| <= |old(codec.functions)|
      ensures !st.Broken? && codec.functionIds == old(codec.functionIds)
    {
      if !reply.valid || reply.error {
        return Error;
      }
      var r, values := codec.DecodeFrame(reply.bytes);
      if r.Done? {
        return Normal;
      }
      TakeBack();
      return Error;
    }

    /** Rolls back what an earlier failure left pending, then delivers and answers. */
    method Exchange(args: seq<Value>, reply: Reply) returns (st: Status, delivering: bool)
      requires Ledger(Account()) && |codec.functions| <= codec.referenceLimit && |codec.handles| <= codec.handleLimit
      modifies codec, `log, `callbacks
      ensures Ledger(Account()) && LaterBooks(old(Account()), Account())
      ensures |codec.functions| <= codec.referenceLimit && |codec.handles| <= codec.handleLimit
      ensures callbacks - old(callbacks) == |log| - |old(log)| == if delivering then 1 else 0
      ensures !st.Broken?
      ensures !delivering ==> log == old(log) && !st.Normal?
      ensures st.Normal? ==> |args| <= 64
      ensures delivering ==> old(log) < log && Latest(log, args, codec.functionIds)
    {
      hide Consistent, Exact, Ledger, Clean, LaterBooks, Sends, Held, NeverReused;
      ghost var before := Account();
      TakeBack();
      ghost var clean := Account();
      CleanParts(clean);
      if |args| > MAX_COUNT {
        return Error, false;
      }
      var payload;
      delivering, payload := Deliver(args);
      ghost var given := Account();
      LaterBooksTransitive(before, clean, given);
      st := Error;
      if delivering {
        st := Answer(reply);
        LaterBooksTransitive(before, given, Account());
        CleanParts(Account());
      }
    }

    /** `host`: one call from the script into the managed callback. */
    method HostCall(args: seq<Value>, reply: Reply) returns (st: Status)
      requires MidCall()
      modifies codec, `calls, `expired, `log, `callbacks
      ensures MidCall() && LaterBooks(old(Account()), Account()) && LaterProgress(old(Stage()), Stage())
      ensures st.Normal? ==> expired == old(expired) && |args| <= 64
      ensures calls == old(calls) + (if old(expired) then 0 else 1) && (expired <==> old(expired) || calls > callLimit)
      ensures callbacks > old(callbacks) ==> !old(expired) && callbacks == old(callbacks) + 1
      ensures !st.Broken?
      ensures callbacks == old(callbacks) ==> log == old(log)
      ensures callbacks > old(callbacks) ==> old(log) < log && |log| == |old(log)| + 1 && Latest(log, args, codec.functionIds)
    {
      hide Ledger, Consistent, Exact, NoDuplicates, InCall, LaterProgress, LaterBooks, Latest, Held, NeverReused;
      ghost var b, p := Account(), Stage();
      NothingChanged(b, p);
      st := Error;
      if expired {
        return;
      }
      calls := calls + 1;
      var delivering := false;
      if calls > callLimit {
        expired := true;
      } else {
        st, delivering := Exchange(args, reply);
      }
      AttemptIsSound(p, delivering, modules.Keys, callLimit);
      ghost var n := if delivering then 1 else 0;
      assert Stage() == Attempted(p, callLimit).(callbacks := p.callbacks + n, events := p.events + n);
    }

    /** What any piece of script does to the books, to the loader and to the budget. */
    ghost predicate Advanced(b: Books, p: Progress)
      reads this, codec
    {
      MidCall() && LaterBooks(b, Account()) && LaterProgress(p, Stage())
    }

    /** A script runs its steps until one of them fails. */
    method Exec(ops: seq<Op>, ghost nesting: nat) returns (st: Status)
      requires MidCall() && nesting <= |loading|
      modifies codec, `calls, `expired, `log, `callbacks, `loaded, `loading, `started, `completed, `deepest
      ensures Advanced(old(Account()), old(Stage())) && (st.Broken? ==> expired)
      decreases Available(Stage(), modules.Keys), 2, ops
    {
      hide Ledger, Consistent, Exact, NoDuplicates, InCall, LaterBooks;
      NothingChanged(Account(), Stage());
      st := Normal;
      var i := 0;
      while i < |ops|
        invariant 0 <= i <= |ops| && st.Normal? && Advanced(old(Account()), old(Stage()))
        decreases |ops| - i
      {
        ghost var b, p := Account(), Stage();
        assert Available(p, modules.Keys) <= Available(old(Stage()), modules.Keys);
        CardinalityOfSubset(old(loading), loading);
        st := ExecOp(ops[i], nesting);
        LaterBooksTransitive(old(Account()), b, Account());
        LaterProgressTransitive(old(Stage()), p, Stage());
        if !st.Normal? {
          return;
        }
        i := i + 1;
      }
    }

    method ExecOp(op: Op, ghost nesting: nat) returns (st: Status)
      requires MidCall() && nesting <= |loading|
      modifies codec, `calls, `expired, `log, `callbacks, `loaded, `loading, `started, `completed, `deepest
      ensures Advanced(old(Account()), old(Stage())) && (st.Broken? ==> expired) && (op.PcallOp? ==> !st.Error?)
      decreases Available(Stage(), modules.Keys), 2, op
    {
      hide Consistent, Exact, NoDuplicates;
      match op
      case HostOp(args, reply) => st := HostCall(args, reply);
      case RequireOp(name) => st := Require(name, nesting);
      case PcallOp(body) =>
        st := Exec(body, nesting);
        if st.Error? { st := Normal; }
      case Run =>
        st := Interrupt();
        if st.Normal? {
          if * { st := Error; }
        }
    }

    /** `requireModule` and `loadModule`: a module's body runs only if the module is neither
        loaded nor loading, and a module whose body failed stays marked until the call ends. */
    method Require(name: Name, ghost nesting: nat) returns (st: Status)
      requires MidCall() && nesting <= |loading|
      modifies codec, `calls, `expired, `log, `callbacks, `loaded, `loading, `started, `completed, `deepest
      ensures Advanced(old(Account()), old(Stage()))
      ensures st.Normal? ==> name in loaded
      ensures name in modules && name in old(loaded) ==> st.Normal?
      ensures name !in modules || (name !in old(loaded) && name in old(loading)) ==> st.Error?
      ensures name !in modules || name in old(loaded + loading) ==> Account() == old(Account()) && Stage() == old(Stage())
      ensures name in modules && name !in old(loaded + loading) ==> old(started) + [name] <= started
      ensures !st.Broken?
      decreases Available(Stage(), modules.Keys), 1
    {
      hide Ledger, Consistent, Exact, NoDuplicates, InCall, LaterProgress, LaterBooks;
      ghost var b, p := Account(), Stage();
      NothingChanged(b, p);
      if name !in modules || (name !in loaded && name in loading) {
        return Error;
      }
      if name in loaded {
        return Normal;
      }
      st := RunBody(name, nesting);
      ghost var q := Stage();
      LaterProgressTransitive(p, Starting(p, name, nesting), q);
      NothingIsUndone(Starting(p, name, nesting), q);
      var unfit := *;
      if !st.Normal? || unfit {
        return Error;
      }
      CompletingIsSound(p, name, q, nesting, modules.Keys, callLimit);
      loaded, loading, completed := loaded + {name}, loading - {name}, completed + [name];
      assert Stage() == Completing(q, name);
    }

    /** A module's body may take any course whenever it starts. */
    method RunBody(name: Name, ghost nesting: nat) returns (st: Status)
      requires MidCall() && nesting <= |loading| && name in Available(Stage(), modules.Keys)
      modifies codec, `calls, `expired, `log, `callbacks, `loaded, `loading, `started, `completed, `deepest
      ensures MidCall() && LaterBooks(old(Account()), Account())
      ensures LaterProgress(old(Starting(Stage(), name, nesting)), Stage()) && LaterProgress(old(Stage()), old(Starting(Stage(), name, nesting)))
      decreases Available(Stage(), modules.Keys), 0
    {
      hide Ledger, Consistent, Exact, NoDuplicates, InCall, LaterProgress, LaterBooks, Available;
      ghost var b, p := Account(), Stage();
      AvailableIsKnown(p, name, modules.Keys);
      StartingIsSound(p, name, nesting, modules.Keys, callLimit);
      loading := loading + {name};
      started := started + [name];
      deepest := if deepest > nesting then deepest else nesting + 1;
      assert Account() == b && Stage() == Starting(p, name, nesting);
      var ops: seq<Op> := *;
      st := Exec(ops, nesting + 1);
    }

    /** The function that is to be called: an exported one, or a module's after loading it. */
    method Fetch(target: Target) returns (ok: bool)
      requires MidCall()
      modifies codec, `calls, `expired, `log, `callbacks, `loaded, `loading, `started, `completed, `deepest
      ensures Advanced(old(Account()), old(Stage()))
      ensures ok ==> Callable(target, old(codec.functions).Keys, loaded)
    {
      hide Ledger, Consistent, NoDuplicates, InCall, LaterProgress, LaterBooks;
      NothingChanged(Account(), Stage());
      match target {
        case Reference(id) =>
          ok := id in codec.functions;
        case Export(module_) =>
          var st := Require(module_, 0);
          var callable := *;
          ok := st.Normal? && callable;
      }
    }

    /** `invoke`: everything that happens inside the protected call. On success only the
        references in the results are pending. */
    method Invoke(target: Target, args: seq<byte>, body: seq<Op>, results: seq<Value>) returns (ok: bool, output: seq<byte>)
      requires MidCall()
      modifies codec, `calls, `expired, `log, `callbacks, `loaded, `loading, `started, `completed, `deepest
      ensures Advanced(old(Account()), old(Stage()))
      ensures ok ==> !expired && Exact(codec.Tables()) && codec.functions.Keys == Held(log) + FrameNumbers(output)
      ensures ok ==> Sends(output, results, codec.functionIds) && |output| <= payloadLimit
      ensures ok ==> Callable(target, old(codec.functions).Keys, loaded) && |results| <= 64
    {
      hide Ledger, Consistent, Exact, Sends, NoDuplicates, InCall, LaterProgress, LaterBooks;
      ghost var b, p := Account(), Stage();
      output := [];
      ok := Fetch(target);
      if !ok {
        return;
      }
      ghost var b1, p1 := Account(), Stage();
      ok := Execute(args, body);
      LaterBooksTransitive(b, b1, Account());
      LaterProgressTransitive(p, p1, Stage());
      NothingIsUndone(p1, Stage());
      if ok {
        ghost var b2 := Account();
        ok, output := Results(results);
        LaterBooksTransitive(b, b2, Account());
      }
    }

    /** Decodes the arguments and runs the function; an expired call does not succeed. */
    method Execute(args: seq<byte>, body: seq<Op>) returns (ok: bool)
      requires MidCall()
      modifies codec, `calls, `expired, `log, `callbacks, `loaded, `loading, `started, `completed, `deepest
      ensures Advanced(old(Account()), old(Stage()))
      ensures ok ==> !expired
    {
      hide Ledger, Consistent, NoDuplicates, InCall, LaterProgress, LaterBooks;
      NothingChanged(Account(), Stage());
      var r, values := codec.DecodeFrame(args);
      if !r.Done? {
        return false;
      }
      var st := Exec(body, 0);
      ok := st.Normal? && !expired;
    }

    /** Takes back what a caught failure left pending, then encodes the results. */
    method Results(results: seq<Value>) returns (ok: bool, output: seq<byte>)
      requires MidCall()
      modifies codec`functions, codec`functionIds, codec`pendingRefs, codec`nextReference, codec`nodes
      ensures MidCall() && LaterBooks(old(Account()), Account())
      ensures ok ==> Exact(codec.Tables()) && codec.functions.Keys == Held(log) + FrameNumbers(output)
      ensures ok ==> Sends(output, results, codec.functionIds) && |output| <= payloadLimit
      ensures ok ==> |results| <= 64
    {
      hide Consistent, Exact, NoDuplicates, InCall, Grows, Ledger, Clean, LaterBooks, NewFrom, FrameFits;
      ghost var b := Account();
      TakeBack();
      ghost var clean := Account();
      CleanParts(clean);
      if |results| > MAX_COUNT {
        return false, [];
      }
      var r;
      r, output := codec.EncodeFrame(results);
      EncodingBooks(clean, codec.Tables());
      LaterBooksTransitive(b, clean, Account());
      ok := r.Done? && |output| <= payloadLimit;
      if ok { EncodedNumbers(clean, codec.Tables(), results); }
    }

    /** The results go to the host. */
    method HandResults(output: seq<byte>, ghost b: Books)
      requires MidCall() && Clean(b) && LaterBooks(b, Account())
      requires Exact(codec.Tables()) && codec.functions.Keys == Held(log) + FrameNumbers(output)
      modifies codec`pendingRefs, `log
      ensures Clean(Account()) && LaterBooks(b, Account()) && InCall(Stage(), modules.Keys, callLimit)
      ensures log == old(log) + [Sent(output)]
    {
      hide InCall, Ledger, Exact, Clean, LaterBooks, Held;
      ghost var b1, p := Account(), Stage();
      HandOverBooks(b, b1, output);
      log := log + [Sent(output)];
      codec.HandOver();
      assert Account() == HandedOver(b1, output);
      EventsDoNotMatter(p, Stage(), modules.Keys, callLimit);
    }

    /** On success the results go to the host, on failure what is pending is taken back. */
    method InvokeAndSettle(target: Target, args: seq<byte>, body: seq<Op>, results: seq<Value>) returns (ok: bool, output: seq<byte>)
      requires MidCall() && Clean(Account())
      modifies codec, `calls, `expired, `log, `callbacks, `loaded, `loading, `started, `completed, `deepest
      ensures InCall(Stage(), modules.Keys, callLimit) && old(completed) <= completed
      ensures |codec.functions| <= codec.referenceLimit && |codec.handles| <= codec.handleLimit
      ensures Clean(Account()) && LaterBooks(old(Account()), Account())
      ensures |log| - |old(log)| == callbacks - old(callbacks) + if ok then 1 else 0
      ensures ok ==> !expired && Sends(output, results, codec.functionIds) && |output| <= payloadLimit && log != [] && log[|log| - 1] == Sent(output)
      ensures ok ==> Callable(target, old(codec.functions).Keys, loaded) && |results| <= 64
    {
      hide NoDuplicates, InCall, Ledger, Consistent, Exact, Clean, LaterBooks, Sends, Held;
      ghost var b := Account();
      ok, output := Invoke(target, args, body, results);
      ghost var b1 := Account();
      if ok {
        HandResults(output, b);
      } else {
        TakeBack();
        LaterBooksTransitive(b, b1, Account());
      }
    }

    /** `protect` around the call: afterwards no module counts as loading. */
    method Protect(target: Target, args: seq<byte>, body: seq<Op>, results: seq<Value>) returns (ok: bool, output: seq<byte>)
      requires MidCall() && Clean(Account())
      modifies codec, `calls, `expired, `log, `callbacks, `loaded, `loading, `started, `completed, `deepest
      ensures Sound(Stage(), modules.Keys, callLimit) && loading == {} && old(completed) <= completed
      ensures |codec.functions| <= codec.referenceLimit && |codec.handles| <= codec.handleLimit
      ensures Clean(Account()) && LaterBooks(old(Account()), Account())
      ensures |log| - |old(log)| == callbacks - old(callbacks) + if ok then 1 else 0
      ensures ok ==> !expired && Sends(output, results, codec.functionIds) && |output| <= payloadLimit && log != [] && log[|log| - 1] == Sent(output)
      ensures ok ==> Callable(target, old(codec.functions).Keys, loaded) && |results| <= 64
    {
      hide Clean, InCall, Sound, LaterBooks, Sends;
      ok, output := InvokeAndSettle(target, args, body, results);
      ghost var q := Stage();
      CallBounds(q, modules.Keys, callLimit);
      loading := {};
      assert Stage() == q.(loading := {});
    }

    /** The counters of a call at its start. */
    method Begin()
      requires Idle()
      modifies `calls, `expired, `callbacks, `started
      ensures MidCall() && Clean(Account()) && Account() == old(Account()) && callbacks == 0
    {
      hide Clean, Ledger, Sound, InCall;
      ghost var b, p := Account(), Stage();
      CleanParts(b);
      CallBounds(p, modules.Keys, callLimit);
      calls, expired, callbacks, started := 0, false, 0, [];
      assert Account() == b && Stage() == Reset(p);
    }

    /** `luau_host_call`: whatever the script does and wherever it fails, the host keeps its
        references and is sent only new ones, in at most as many callbacks as the limit allows
        and then, if the call succeeds, in its output. A failed call leaves it only what a
        callback had received; an expired call never succeeds. */
    method Call(target: Target, args: seq<byte>, body: seq<Op>, results: seq<Value>)
      returns (ok: bool, output: seq<byte>, ghost deliveries: nat)
      requires Idle()
      modifies codec, `calls, `expired, `log, `callbacks, `loaded, `loading, `started, `completed, `deepest
      ensures Idle() && LaterBooks(old(Account()), Account())
      ensures |log| == |old(log)| + deliveries + (if ok then 1 else 0) && deliveries <= callLimit
      ensures ok ==> !expired && Sends(output, results, codec.functionIds) && |output| <= payloadLimit && log[|log| - 1] == Sent(output)
      ensures ok ==> Callable(target, Held(old(log)), loaded) && 4 <= |args| <= payloadLimit && |results| <= 64
      ensures old(completed) <= completed
    {
      hide Clean, Ledger, NoDuplicates, Sound, InCall, Exact, Consistent, LaterBooks, LaterProgress, Sends, NeverReused;
      CleanParts(Account());
      NothingChanged(Account(), Stage());
      ok, output, deliveries := false, [], 0;
      if |args| < 4 || |args| > payloadLimit {
        return;
      }
      Begin();
      ok, output := Protect(target, args, body, results);
      deliveries := callbacks;
      CallbacksAreFew(Stage(), modules.Keys, callLimit);
    }

    lemma IdleOwnership()
      requires Idle()
      ensures codec.functions.Keys == Held(log) && Exact(codec.Tables()) && codec.pendingRefs == [] && NeverReused(log)
    {
    }

    /** `luau_host_release`: the host gives one of its references back, between calls. */
    method Release(id: nat) returns (ok: bool)
      requires Idle()
      modifies codec`functions, codec`functionIds, `log
      ensures Idle() && (ok <==> id in Held(old(log)))
      ensures log == old(log) + (if ok then [GivenBack(id)] else []) && Held(log) == Held(old(log)) - {id}
      ensures forall i :: i in Held(log) ==> codec.functions[i] == old(codec.functions)[i]
    {
      hide Consistent, Exact, Ledger, Clean, Interned, NoDuplicates, Sound, Held;
      ghost var b := Account();
      CleanParts(b);
      HeldAfter(log, GivenBack(id));
      ok := id in codec.functions;
      if ok {
        codec.Release(id);
        log := log + [GivenBack(id)];
        ReleaseBooks(b, Account(), id);
        CleanParts(Account());
        EventsDoNotMatter(Stage(), Stage().(events := |b.log|), modules.Keys, callLimit);
      }
    }

    /** `luau_host_module`: registers the source of a module once, within the limits on its
        length in bytes and on the number of modules. */
    method AddModule(name: Name, source: seq<byte>, length: int) returns (ok: bool)
      requires Idle() && length <= |source|
      modifies `modules
      ensures Idle() && (ok <==> 0 <= length <= 524288 && name !in old(modules) && |old(modules)| < 1024)
      ensures modules == if ok then old(modules)[name := source[..length]] else old(modules)
    {
      ok := 0 <= length <= MAX_SOURCE && |modules| < MAX_MODULES && name !in modules;
      if ok {
        modules := modules[name := source[..length]];
        CardinalityOfSubset(old(modules).Keys, modules.Keys);
      }
    }
  }

  const MAX_MODULES: nat := 1024
  const MAX_SOURCE: nat := 512 * 1024

  /** What the host may ask for. */
  datatype Request =
    | CallRequest(target: Target, args: seq<byte>, body: seq<Op>, results: seq<Value>)
    | ReleaseRequest(id: nat)
    | ModuleRequest(name: Name, source: seq<byte>)

  /** Any number of requests, one after the other, with any scripts and any failures in them.
      What the live references are, the host could tell from the frames that it has been sent and
      the references that it has given back; and a number that it has given back is never sent
      to it again. */
  method Serve(vm: HostVm, requests: seq<Request>)
    requires vm.Idle()
    modifies vm, vm.codec
    ensures vm.Idle() && old(vm.log) <= vm.log
    ensures vm.codec.functions.Keys == Held(vm.log) && NeverReused(vm.log)
    ensures |vm.log| <= |old(vm.log)| + |requests| * (vm.callLimit + 1)
  {
    hide Held, NeverReused, HostVm.Idle;
    var n := 0;
    while n < |requests|
      invariant 0 <= n <= |requests| && vm.Idle() && old(vm.log) <= vm.log
      invariant |vm.log| <= |old(vm.log)| + n * (vm.callLimit + 1)
      decreases |requests| - n
    {
      ServeOne(vm, requests[n]);
      OneMoreTime(n, vm.callLimit + 1);
      n := n + 1;
    }
    vm.IdleOwnership();
  }

  method ServeOne(vm: HostVm, request: Request)
    requires vm.Idle()
    modifies vm, vm.codec
    ensures vm.Idle() && old(vm.log) <= vm.log && |vm.log| <= |old(vm.log)| + vm.callLimit + 1
  {
    hide Clean, Sound, Held, NeverReused, FrameNumbers, Sends;
    match request {
      case CallRequest(target, args, body, results) =>
        var ok, output;
        ghost var deliveries;
        ok, output, deliveries := vm.Call(target, args, body, results);
      case ReleaseRequest(id) =>
        var ok := vm.Release(id);
      case ModuleRequest(name, source) =>
        var ok := vm.AddModule(name, source, |source|);
    }
  }

  lemma OneMoreTime(n: nat, k: nat)
    ensures (n + 1) * k == n * k + k
  {
  }
}
