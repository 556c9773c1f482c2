/** The function references that the protected VM bridge exports (native-build/bridge.cpp):
    an interning table with rollback of the references that never reached the host. */
module BridgeRefs {
  import opened Basics
  import opened BridgeWire

  const INT_MAX: nat := 0x7fff_ffff

  /** An exported function; `pinned` once Lua holds a reference to it. */
  datatype Export = Export(pinned: bool, identity: Identity)

  datatype Refs = Refs(functions: map<nat, Export>, ids: map<Identity, nat>, pending: seq<nat>, next: nat)

  /** `functions` and `functionIds` agree on this reference. */
  ghost predicate Interned(r: Refs, id: nat)
    requires id in r.functions
  {
    var e := r.functions[id];
    e.pinned && e.identity in r.ids && r.ids[e.identity] == id
  }

  /** A reference whose registration was cut short: not in `functionIds` yet. */
  ghost predicate CutShort(r: Refs, id: nat)
    requires id in r.functions
  {
    id in r.pending && r.functions[id].identity !in r.ids
  }

  /** What holds at every moment, even right after a failure inside a registration. */
  ghost predicate Consistent(r: Refs) {
    && (forall f :: f in r.ids ==> r.ids[f] in r.functions && r.functions[r.ids[f]].identity == f)
    && (forall id :: id in r.functions ==> id < r.next && (Interned(r, id) || CutShort(r, id)))
    && (forall id :: id in r.pending ==> id < r.next)
    && 0 !in r.functions && 0 < r.next <= INT_MAX
  }

  /** No registration is cut short: the two tables are exact inverses. */
  ghost predicate Exact(r: Refs) {
    Consistent(r) && forall id :: id in r.functions ==> Interned(r, id)
  }

  /** Everything pending taken back. */
  ghost function RolledBack(r: Refs): Refs {
    Refs(map id | id in r.functions && id !in r.pending :: r.functions[id],
         map f | f in r.ids && r.ids[f] !in r.pending :: r.ids[f], [], r.next)
  }

  lemma RollbackIsExact(r: Refs)
    requires Consistent(r)
    ensures Exact(RolledBack(r))
  {
  }

  /** Rolling back all but the pending references from `k` on. */
  ghost function RolledBackTo(r: Refs, k: nat): Refs
    requires k <= |r.pending|
  {
    Refs(map id | id in r.functions && id !in r.pending[..k] :: r.functions[id],
         map f | f in r.ids && r.ids[f] !in r.pending[..k] :: r.ids[f], r.pending, r.next)
  }

  /** Taking back one pending reference: it goes from `functions`, and its identity from
      `functionIds` if the registration got that far. */
  ghost function TakenBack(r: Refs, id: nat): Refs {
    if id in r.functions then r.(functions := r.functions - {id}, ids := r.ids - {r.functions[id].identity}) else r
  }

  lemma TakeBackOne(r: Refs, k: nat)
    requires Consistent(r) && k < |r.pending|
    ensures TakenBack(RolledBackTo(r, k), r.pending[k]) == RolledBackTo(r, k + 1)
  {
    var id, a, b := r.pending[k], RolledBackTo(r, k), RolledBackTo(r, k + 1);
    OneMoreTaken(r.pending, k);
    if id in a.functions {
      assert Interned(r, id) || CutShort(r, id);
      hide CutShort;
      assert forall i :: i in b.functions <==> i in a.functions && i != id;
      assert TakenBack(a, id).functions == b.functions;
      assert TakenBack(a, id).ids == b.ids;
    } else {
      assert forall f :: f in r.ids && r.ids[f] == id ==> id in r.functions;
      assert a.functions == b.functions && a.ids == b.ids;
    }
  }

  lemma OneMoreTaken(pending: seq<nat>, k: nat)
    requires k < |pending|
    ensures forall i :: i in pending[..k + 1] <==> i in pending[..k] || i == pending[k]
  {
    assert pending[..k + 1] == pending[..k] + [pending[k]];
  }

  lemma RollbackShrinks(r: Refs)
    ensures |RolledBack(r).functions| <= |r.functions|
  {
    CardinalityOfSubset(RolledBack(r).functions.Keys, r.functions.Keys);
  }

  /** The steps of a new registration, any of which may be the last one. */
  ghost function Registering(r: Refs, identity: Identity, step: nat): Refs {
    var id := r.next;
    Refs(if step < 2 then r.functions else r.functions[id := Export(step >= 3, identity)],
         if step < 4 then r.ids else r.ids[identity := id],
         if step < 1 then r.pending else r.pending + [id], r.next + 1)
  }

  /** Wherever it is cut short, a registration leaves the tables consistent. */
  lemma RegisteringGrows(r: Refs, identity: Identity)
    requires Exact(r) && identity !in r.ids && r.next < INT_MAX
    ensures forall step :: CutOff(r, identity, step, Registering(r, identity, step))
  {
    forall step ensures CutOff(r, identity, step, Registering(r, identity, step)) {
      RegisteringSteps(r, identity, step);
    }
  }

  ghost predicate CutOff(r: Refs, identity: Identity, step: nat, r': Refs) {
    Consistent(r') && Grows(r, r') && (step >= 4 ==> Exact(r')) && |r'.functions| <= |r.functions| + 1
  }

  lemma RegisteringSteps(r: Refs, identity: Identity, step: nat)
    requires Exact(r) && identity !in r.ids && r.next < INT_MAX
    ensures CutOff(r, identity, step, Registering(r, identity, step))
  {
    var r' := Registering(r, identity, step);
    forall id | id in r'.functions ensures id < r'.next && (if step >= 4 || id < r.next then Interned(r', id) else CutShort(r', id)) {
      if id < r.next { assert Interned(r, id); }
    }
  }

  /** Later tables keep every reference, and new ones have numbers never used before. */
  ghost predicate Grows(r: Refs, r': Refs) {
    && r.next <= r'.next
    && (forall id :: id in r.functions ==> id in r'.functions && r'.functions[id] == r.functions[id])
    && (forall f :: f in r.ids ==> f in r'.ids && r'.ids[f] == r.ids[f])
    && (forall id :: id in r'.functions ==> id in r.functions || (r.next <= id && id in r'.pending))
    && r.pending <= r'.pending && (forall id :: id in r'.pending ==> id in r.pending || r.next <= id)
  }

  /** Just these functions are known besides those that were. */
  ghost predicate NewFrom(ids: map<Identity, nat>, ids': map<Identity, nat>, functions: set<Identity>) {
    ids'.Keys == ids.Keys + functions
  }

  lemma NewFromBoth(a: map<Identity, nat>, b: map<Identity, nat>, c: map<Identity, nat>, f: set<Identity>, g: set<Identity>)
    requires NewFrom(a, b, f) && NewFrom(b, c, g)
    ensures NewFrom(a, c, f + g)
  {
  }

  lemma NothingNew(ids: map<Identity, nat>)
    ensures NewFrom(ids, ids, {})
  {
  }

  lemma Unchanged(r: Refs)
    requires Exact(r)
    ensures Consistent(r) && Grows(r, r)
  {
  }

  lemma GrowsTransitive(a: Refs, b: Refs, c: Refs)
    requires Grows(a, b) && Grows(b, c)
    ensures Grows(a, c)
  {
  }
}
