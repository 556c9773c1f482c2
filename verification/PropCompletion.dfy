/** Property completion over possibly cyclic types (`autocompleteProps` in
    Analysis/src/AutocompleteCore.cpp). */
module PropCompletion {
  import opened Basics
  import opened TypeLinks

  /** Properties by name, each with its read type if it can be read. */
  type Props = map<string, Option<Id>>

  datatype Ty =
    | Extern(props: Props, parent: Option<Id>)
    | Table(props: Props, indexer: Option<Id>)
    | Metatable(table: Id, metatable: Id)
    | Function(ret: Option<Id>)
    | Intersection(parts: seq<Id>)
    | Union(options: seq<Id>)
    | Primitive(shared: Option<Id>)
    | StringSingleton(value: string)
    | Nil | ErrorTy | Never | Opaque

  /** A completion: a property with its type, or a string key; and the extern type that
      the search started from, if any. */
  datatype Entry = PropEntry(ty: Id, container: Option<Id>) | StringEntry(container: Option<Id>)

  type Entries = map<string, Entry>

  const PARSE_NAME_ERROR: string := "%error-id%"

  /** The types, the string type, and whether the completion follows a dot (`point`). */
  datatype Graph = Graph(nodes: map<Id, Ty>, links: map<Id, Id>, stringType: Id, point: bool) {

    function Followed(x: Id): Id { Follow(links, x) }

    ghost predicate Has(x: Id) { Followed(x) in nodes }

    ghost predicate HasAll(xs: seq<Id>) { forall x :: x in xs ==> Has(x) }

    ghost predicate HasOpt(x: Option<Id>) { x.Some? ==> Has(x.value) }

    ghost predicate HasProps(props: Props) { forall k :: k in props ==> HasOpt(props[k]) }

    ghost predicate HasChildren(t: Ty) {
      match t
      case Extern(props, parent) => HasProps(props) && HasOpt(parent)
      case Table(props, indexer) => HasProps(props) && HasOpt(indexer)
      case Metatable(table, metatable) => Has(table) && Has(metatable)
      case Function(ret) => HasOpt(ret)
      case Intersection(parts) => HasAll(parts)
      case Union(options) => HasAll(options)
      case Primitive(shared) => HasOpt(shared)
      case _ => true
    }

    /** Finite and closed; cycles are welcome, but every Bound chain ends. */
    ghost predicate Valid() {
      && Has(stringType)
      && forall id :: id in nodes ==> id !in links && HasChildren(nodes[id])
    }

    function At(x: Id): Ty
      requires Has(x)
    {
      nodes[Followed(x)]
    }

    /** The union iterator: nested unions are entered in place, each at most once. */
    function Options(work: seq<Id>, entered: set<Id>): (leaves: seq<Id>)
      requires Valid() && HasAll(work) && entered <= nodes.Keys
      ensures forall x :: x in leaves ==> x in nodes && !nodes[x].Union?
      decreases nodes.Keys - entered, |work|
    {
      if work == [] then []
      else
        assert Has(work[0]);
        var f := Followed(work[0]);
        if !nodes[f].Union? then [f] + Options(work[1..], entered)
        else if f in entered then Options(work[1..], entered)
        else
          assert HasChildren(nodes[f]);
          Options(nodes[f].options + work[1..], entered + {f})
    }

    function UnionOptions(u: Id): seq<Id>
      requires Valid() && u in nodes && nodes[u].Union?
    {
      assert HasChildren(nodes[u]);
      Options(nodes[u].options, {u})
    }

    predicate Skippable(x: Id)
      requires Has(x)
    {
      At(x).Nil? || At(x).ErrorTy? || At(x).Never?
    }

    /** What `__index` of a table leads to, if it is a table or a function with a result. */
    function IndexTarget(props: Props): (x: Option<Id>)
      requires Valid() && HasProps(props)
      ensures HasOpt(x)
    {
      if "__index" !in props || props["__index"].None? then None
      else
        var f := Followed(props["__index"].value);
        assert HasOpt(props["__index"]) && HasChildren(nodes[f]);
        if nodes[f].Table? || nodes[f].Metatable? then Some(f)
        else if nodes[f].Function? then nodes[f].ret
        else None
    }

    /** The string keys that an indexer of this key type offers. */
    function StringKeys(indexer: Option<Id>): seq<string>
      requires Valid() && HasOpt(indexer)
    {
      if indexer.None? || !point then []
      else
        var f := Followed(indexer.value);
        if nodes[f].Union? then Singletons(UnionOptions(f)) else Singletons([f])
    }

    function Singletons(xs: seq<Id>): seq<string>
      requires forall x :: x in xs ==> x in nodes
    {
      if xs == [] then []
      else (if nodes[xs[0]].StringSingleton? then [nodes[xs[0]].value] else []) + Singletons(xs[1..])
    }

    function Own(props: Props, container: Option<Id>): Entries {
      map k | k in props && props[k].Some? && k != PARSE_NAME_ERROR :: PropEntry(Followed(props[k].value), container)
    }
  }

  ghost function KeyEntries(keys: set<string>, container: Option<Id>): Entries {
    map k | k in keys :: StringEntry(container)
  }

  // ---- the meaning of a type without cycles ----

  /** A type unfolded into a finite tree; a skipped option of a union is `None`. */
  datatype Tree =
    | ExternTree(id: Id, props: Props, parent: Option<Tree>)
    | TableTree(id: Id, props: Props, keys: set<string>)
    | MetatableTree(id: Id, table: Tree, index: Option<Tree>)
    | IntersectionTree(id: Id, parts: seq<Tree>)
    | UnionTree(id: Id, options: seq<Option<Tree>>)
    | PrimitiveTree(id: Id, index: Option<Tree>)
    | SingletonTree(id: Id, stringTree: Tree)
    | LeafTree(id: Id)

  ghost predicate Unfolds(g: Graph, x: Id, t: Tree)
    requires g.Valid() && g.Has(x)
    decreases t
  {
    assert g.HasChildren(g.At(x));
    && t.id == g.Followed(x)
    && match g.At(x)
       case Extern(props, parent) => t.ExternTree? && t.props == props && UnfoldsOpt(g, parent, t.parent)
       case Table(props, indexer) => t.TableTree? && t.props == props && SameKeys(g, indexer, t.keys)
       case Metatable(table, metatable) =>
         t.MetatableTree? && Unfolds(g, table, t.table) && UnfoldsIndex(g, Some(g.Followed(metatable)), t.index)
       case Intersection(parts) => t.IntersectionTree? && UnfoldsAll(g, parts, t.parts)
       case Union(_) => t.UnionTree? && UnfoldsOptions(g, g.UnionOptions(t.id), t.options)
       case Primitive(shared) => t.PrimitiveTree? && UnfoldsIndex(g, shared, t.index)
       case StringSingleton(_) => t.SingletonTree? && Unfolds(g, g.stringType, t.stringTree)
       case _ => t.LeafTree?
  }

  ghost predicate UnfoldsOpt(g: Graph, x: Option<Id>, t: Option<Tree>)
    requires g.Valid() && g.HasOpt(x)
    decreases t
  {
    match t
    case None => x.None?
    case Some(tree) => x.Some? && Unfolds(g, x.value, tree)
  }

  ghost predicate UnfoldsAll(g: Graph, xs: seq<Id>, ts: seq<Tree>)
    requires g.Valid() && g.HasAll(xs)
    decreases ts
  {
    && |xs| == |ts|
    && (ts != [] ==> g.Has(xs[0]) && Unfolds(g, xs[0], ts[0]) && UnfoldsAll(g, xs[1..], ts[1..]))
  }

  ghost predicate UnfoldsOptions(g: Graph, xs: seq<Id>, ts: seq<Option<Tree>>)
    requires g.Valid() && g.HasAll(xs)
    decreases ts
  {
    && |xs| == |ts|
    && (ts != [] ==>
          g.Has(xs[0]) && UnfoldsOption(g, xs[0], ts[0]) && UnfoldsOptions(g, xs[1..], ts[1..]))
  }

  ghost predicate UnfoldsOption(g: Graph, x: Id, t: Option<Tree>)
    requires g.Valid() && g.Has(x)
    decreases t
  {
    var nothing := g.At(x) == Nil || g.At(x) == ErrorTy || g.At(x) == Never;
    match t
    case None => nothing
    case Some(tree) => !nothing && Unfolds(g, x, tree)
  }

  /** What a table's `__index` leads to: a table, with a metatable or without, or else the
      result of a function. */
  ghost predicate IndexLeads(g: Graph, table: Id, f: Id) {
    && table in g.nodes && g.nodes[table].Table?
    && "__index" in g.nodes[table].props && g.nodes[table].props["__index"].Some?
    && var i := g.Followed(g.nodes[table].props["__index"].value);
       && i in g.nodes
       && (((g.nodes[i].Table? || g.nodes[i].Metatable?) && f == i)
           || (g.nodes[i].Function? && g.nodes[i].ret.Some? && f == g.Followed(g.nodes[i].ret.value)))
  }

  ghost predicate UnfoldsIndex(g: Graph, metatable: Option<Id>, t: Option<Tree>)
    requires g.Valid()
    decreases t
  {
    match t
    case None => forall f :: !(metatable.Some? && IndexLeads(g, metatable.value, f))
    case Some(tree) =>
      && metatable.Some? && IndexLeads(g, metatable.value, tree.id)
      && g.Has(tree.id) && Unfolds(g, tree.id, tree)
  }

  /** The string keys of an indexer: the string singleton that it is, or those that it leads to
      if it is a union; they are offered after a dot only. */
  ghost predicate SameKeys(g: Graph, indexer: Option<Id>, keys: set<string>) {
    forall k :: k in keys <==> g.point && indexer.Some? && exists x :: IsKey(g, g.Followed(indexer.value), x, k)
  }

  ghost predicate IsKey(g: Graph, f: Id, x: Id, k: string) {
    && f in g.nodes && x in g.nodes && g.nodes[x] == StringSingleton(k)
    && if g.nodes[f].Union? then Leads(g, g.nodes[f].options, {f}, x) else x == f
  }

  lemma {:induction false} SingletonsAre(g: Graph, xs: seq<Id>, k: string)
    requires forall x :: x in xs ==> x in g.nodes
    ensures k in g.Singletons(xs) <==> exists x :: x in xs && g.nodes[x] == StringSingleton(k)
  {
    if xs != [] { SingletonsAre(g, xs[1..], k); }
  }

  lemma StringKeysAre(g: Graph, indexer: Option<Id>, keys: set<string>)
    requires g.Valid() && g.HasOpt(indexer) && SameKeys(g, indexer, keys)
    ensures forall k :: k in keys <==> k in g.StringKeys(indexer)
  {
    if indexer.Some? && g.point {
      var f := g.Followed(indexer.value);
      assert g.HasChildren(g.nodes[f]);
      var leaves := if g.nodes[f].Union? then g.UnionOptions(f) else [f];
      forall k ensures k in keys <==> k in g.StringKeys(indexer) {
        SingletonsAre(g, leaves, k);
        forall x ensures x in leaves && g.nodes[x] == StringSingleton(k) <==> IsKey(g, f, x, k) {
          if g.nodes[f].Union? { OptionsAreReached(g, g.nodes[f].options, {f}, x); }
        }
      }
    }
  }

  /** The program finds what the index leads to. */
  lemma IndexIsFound(g: Graph, table: Id, t: Option<Tree>)
    requires g.Valid() && table in g.nodes && g.nodes[table].Table? && UnfoldsIndex(g, Some(table), t)
    ensures g.HasProps(g.nodes[table].props) && UnfoldsOpt(g, g.IndexTarget(g.nodes[table].props), t)
  {
    assert g.HasChildren(g.nodes[table]);
    var target := g.IndexTarget(g.nodes[table].props);
    if target.Some? {
      assert IndexLeads(g, table, g.Followed(target.value));
    }
  }

  /** All types in a tree, and the unions and intersections among them. */
  ghost function Ids(t: Tree): set<Id>
    decreases t
  {
    {t.id} +
    match t
    case ExternTree(_, _, parent) => OptIds(parent)
    case MetatableTree(_, table, index) => Ids(table) + OptIds(index)
    case IntersectionTree(_, parts) => AllIds(parts)
    case UnionTree(_, options) => OptionIds(options)
    case PrimitiveTree(_, index) => OptIds(index)
    case SingletonTree(_, stringTree) => Ids(stringTree)
    case _ => {}
  }

  ghost function OptIds(t: Option<Tree>): set<Id>
    decreases t
  {
    match t case None => {} case Some(tree) => Ids(tree)
  }

  ghost function AllIds(ts: seq<Tree>): set<Id>
    decreases ts
  {
    if ts == [] then {} else Ids(ts[0]) + AllIds(ts[1..])
  }

  ghost function OptionIds(ts: seq<Option<Tree>>): set<Id>
    decreases ts
  {
    if ts == [] then {} else OptIds(ts[0]) + OptionIds(ts[1..])
  }

  ghost function BranchIds(g: Graph, ids: set<Id>): set<Id> {
    set x | x in ids && x in g.nodes && (g.nodes[x].Union? || g.nodes[x].Intersection?)
  }

  /** No type recurs below itself, and what is completed with one shared `seen` set does
      not meet: a table and its index, and the first option of a union and the unions and
      intersections of the later ones. A union stands only where nothing is completed yet. */
  ghost predicate Apart(g: Graph, t: Tree)
    decreases t
  {
    match t
    case ExternTree(id, _, parent) => ApartOpt(g, parent) && id !in OptIds(parent)
    case MetatableTree(id, table, index) =>
      && Apart(g, table) && ApartOpt(g, index) && !table.UnionTree?
      && id !in Ids(table) + OptIds(index) && Ids(table) !! OptIds(index)
    case IntersectionTree(id, parts) => ApartAll(g, parts) && id !in AllIds(parts)
    case UnionTree(id, options) => ApartOptions(g, options) && id !in OptionIds(options)
    case PrimitiveTree(id, index) => ApartOpt(g, index) && id !in OptIds(index)
    case SingletonTree(id, stringTree) => Apart(g, stringTree) && !stringTree.UnionTree? && id !in Ids(stringTree)
    case _ => true
  }

  ghost predicate ApartOpt(g: Graph, t: Option<Tree>)
    decreases t
  {
    match t case None => true case Some(tree) => Apart(g, tree) && !tree.UnionTree?
  }

  ghost predicate ApartAll(g: Graph, ts: seq<Tree>)
    decreases ts
  {
    ts == [] || (Apart(g, ts[0]) && ApartAll(g, ts[1..]))
  }

  ghost predicate ApartOptions(g: Graph, ts: seq<Option<Tree>>)
    decreases ts
  {
    ts == [] || (ApartOpt(g, ts[0]) && ApartOptions(g, ts[1..]) && BranchIds(g, OptIds(ts[0])) !! OptionIds(ts[1..]))
  }

  /** The entries that a type adds where there are none of those names yet ... */
  ghost function Weak(g: Graph, t: Tree, container: Option<Id>): Entries
    decreases t, 0
  {
    match t
    case ExternTree(id, props, parent) =>
      var c := if container.Some? then container else Some(id);
      WeakOpt(g, parent, c) + g.Own(props, c)
    case TableTree(_, props, _) => g.Own(props, container)
    case MetatableTree(_, table, index) => WeakOpt(g, index, None) + Weak(g, table, None)
    case IntersectionTree(_, parts) => WholeOfParts(g, parts)
    case UnionTree(_, options) => WholeOfOptions(g, options)
    case PrimitiveTree(_, index) => WeakOpt(g, index, None)
    case SingletonTree(_, stringTree) => Weak(g, stringTree, None)
    case LeafTree(_) => map[]
  }

  ghost function WeakOpt(g: Graph, t: Option<Tree>, container: Option<Id>): Entries
    decreases t, 0
  {
    match t case None => map[] case Some(tree) => Weak(g, tree, container)
  }

  /** ... and the ones that it sets whatever is there: the string keys of indexers. */
  ghost function Strong(g: Graph, t: Tree, container: Option<Id>): Entries
    decreases t
  {
    match t
    case ExternTree(id, _, parent) => StrongOpt(g, parent, if container.Some? then container else Some(id))
    case TableTree(_, _, keys) => KeyEntries(keys, container)
    case MetatableTree(_, table, index) => Strong(g, table, None) + StrongOpt(g, index, None)
    case PrimitiveTree(_, index) => StrongOpt(g, index, None)
    case SingletonTree(_, stringTree) => Strong(g, stringTree, None)
    case _ => map[]
  }

  ghost function StrongOpt(g: Graph, t: Option<Tree>, container: Option<Id>): Entries
    decreases t
  {
    match t case None => map[] case Some(tree) => Strong(g, tree, container)
  }

  /** The completion of a type on its own. */
  ghost function Whole(g: Graph, t: Tree): Entries
    decreases t, 1
  {
    Weak(g, t, None) + Strong(g, t, None)
  }

  /** Intersections: everything in any part, the first part first. */
  ghost function WholeOfParts(g: Graph, ts: seq<Tree>): Entries
    decreases ts, 2
  {
    if ts == [] then map[] else WholeOfParts(g, ts[1..]) + Whole(g, ts[0])
  }

  /** Unions: what the first option has and all others have too, skipped ones aside. */
  ghost function WholeOfOptions(g: Graph, ts: seq<Option<Tree>>): Entries
    decreases ts, 2
  {
    if ts == [] then map[]
    else
      match ts[0]
      case None => WholeOfOptions(g, ts[1..])
      case Some(_) => KeepAll(g, WholeOfOption(g, ts[0]), ts[1..])
  }

  ghost function WholeOfOption(g: Graph, t: Option<Tree>): Entries
    decreases t, 2
  {
    match t case None => map[] case Some(tree) => Whole(g, tree)
  }

  /** Only what every option has, skipped ones aside. */
  ghost function KeepAll(g: Graph, m: Entries, ts: seq<Option<Tree>>): Entries
    decreases ts, 2
  {
    if ts == [] then m else KeepAll(g, KeepOne(g, m, ts[0]), ts[1..])
  }

  ghost function KeepOne(g: Graph, m: Entries, t: Option<Tree>): Entries
    decreases t, 3
  {
    match t case None => m case Some(_) => Restricted(m, WholeOfOption(g, t))
  }

  function Restricted<K, V, W>(m: map<K, V>, to: map<K, W>): map<K, V> {
    map k | k in m && k in to :: m[k]
  }

  predicate Readable(props: Props, k: string) {
    k in props && props[k].Some? && k != "%error-id%"
  }

  /** Which names are offered, said without entries: a class offers its own readable
      properties and its parents', a table with a metatable the table's and the index's, an
      intersection what some part offers, and a union what all its options offer, if any
      option is not skipped. */
  ghost predicate Offers(t: Tree, k: string)
    decreases t
  {
    match t
    case ExternTree(_, props, parent) => Readable(props, k) || Offered(parent, k)
    case TableTree(_, props, keys) => Readable(props, k) || k in keys
    case MetatableTree(_, table, index) => Offers(table, k) || Offered(index, k)
    case IntersectionTree(_, parts) => exists p :: p in parts && Offers(p, k)
    case UnionTree(_, options) =>
      && (exists o :: o in options && Takes(o))
      && forall o :: o in options && Takes(o) ==> Offered(o, k)
    case PrimitiveTree(_, index) => Offered(index, k)
    case SingletonTree(_, stringTree) => Offers(stringTree, k)
    case LeafTree(_) => false
  }

  predicate Takes(o: Option<Tree>) { o.Some? }

  ghost predicate Offered(o: Option<Tree>, k: string)
    decreases o
  {
    match o case None => false case Some(t) => Offers(t, k)
  }

  /** The compositional entries are exactly those of the offered names. */
  lemma {:induction false} KeysAreOffers(g: Graph, t: Tree, container: Option<Id>, k: string)
    ensures k in Weak(g, t, container) + Strong(g, t, container) <==> Offers(t, k)
    decreases t
  {
    match t
    case ExternTree(id, _, parent) => OptKeysAreOffers(g, parent, if container.Some? then container else Some(id), k);
    case TableTree(_, _, _) =>
    case MetatableTree(_, table, index) =>
      KeysAreOffers(g, table, None, k);
      OptKeysAreOffers(g, index, None, k);
    case IntersectionTree(_, parts) => PartKeysAreOffers(g, parts, k);
    case UnionTree(_, options) => OptionKeysAreOffers(g, options, k);
    case PrimitiveTree(_, index) => OptKeysAreOffers(g, index, None, k);
    case SingletonTree(_, stringTree) => KeysAreOffers(g, stringTree, None, k);
    case LeafTree(_) =>
  }

  lemma {:induction false} OptKeysAreOffers(g: Graph, t: Option<Tree>, container: Option<Id>, k: string)
    ensures k in WeakOpt(g, t, container) + StrongOpt(g, t, container) <==> Offered(t, k)
    decreases t
  {
    match t case None => case Some(tree) => KeysAreOffers(g, tree, container, k);
  }

  lemma {:induction false} PartKeysAreOffers(g: Graph, ts: seq<Tree>, k: string)
    ensures k in WholeOfParts(g, ts) <==> exists p :: p in ts && Offers(p, k)
    decreases ts
  {
    if ts != [] {
      KeysAreOffers(g, ts[0], None, k);
      PartKeysAreOffers(g, ts[1..], k);
      assert forall p :: p in ts <==> p == ts[0] || p in ts[1..];
    }
  }

  lemma {:induction false} OptionKeysAreOffers(g: Graph, ts: seq<Option<Tree>>, k: string)
    ensures k in WholeOfOptions(g, ts) <==>
              (exists o :: o in ts && Takes(o)) && forall o :: o in ts && Takes(o) ==> Offered(o, k)
    decreases ts
  {
    if ts != [] {
      assert forall o :: o in ts <==> o == ts[0] || o in ts[1..];
      if ts[0].None? {
        OptionKeysAreOffers(g, ts[1..], k);
      } else {
        WholeKeysAreOffers(g, ts[0], k);
        KeptKeysAreOffers(g, WholeOfOption(g, ts[0]), ts[1..], k);
        assert Takes(ts[0]);
      }
    }
  }

  lemma {:induction false} WholeKeysAreOffers(g: Graph, o: Option<Tree>, k: string)
    requires o.Some?
    ensures k in WholeOfOption(g, o) <==> Offered(o, k)
    decreases o, 1
  {
    KeysAreOffers(g, o.value, None, k);
  }

  lemma {:induction false} KeptKeysAreOffers(g: Graph, m: Entries, ts: seq<Option<Tree>>, k: string)
    ensures k in KeepAll(g, m, ts) <==> k in m && forall o :: o in ts && Takes(o) ==> Offered(o, k)
    decreases ts
  {
    if ts != [] {
      assert forall o :: o in ts <==> o == ts[0] || o in ts[1..];
      if ts[0].Some? { WholeKeysAreOffers(g, ts[0], k); }
      assert k in KeepOne(g, m, ts[0]) <==> k in m && (Takes(ts[0]) ==> Offered(ts[0], k));
      KeptKeysAreOffers(g, KeepOne(g, m, ts[0]), ts[1..], k);
    }
  }

  lemma {:induction false} OptionUnfolds(g: Graph, xs: seq<Id>, ts: seq<Option<Tree>>, j: nat)
    requires g.Valid() && g.HasAll(xs) && UnfoldsOptions(g, xs, ts) && j < |xs|
    ensures |ts| == |xs| && UnfoldsOption(g, xs[j], ts[j])
    decreases xs
  {
    hide UnfoldsOption;
    if j > 0 { OptionUnfolds(g, xs[1..], ts[1..], j - 1); }
  }

  lemma {:induction false} SkippedKeepAll(g: Graph, m: Entries, ts: seq<Option<Tree>>)
    requires forall o :: o in ts ==> o.None?
    ensures KeepAll(g, m, ts) == m
  {
    if ts != [] { SkippedKeepAll(g, m, ts[1..]); }
  }

  lemma {:induction false} LoneOption(g: Graph, ts: seq<Option<Tree>>, i: nat)
    requires i < |ts| && ts[i].Some? && forall j :: 0 <= j < |ts| && j != i ==> ts[j].None?
    ensures WholeOfOptions(g, ts) == Whole(g, ts[i].value)
  {
    if i == 0 {
      SkippedKeepAll(g, Whole(g, ts[0].value), ts[1..]);
    } else {
      LoneOption(g, ts[1..], i - 1);
    }
  }

  /** A union of one type with any number of nil, error and never types, wherever they stand,
      completes to what that type gives alone. */
  lemma OptionalIsAlone(g: Graph, u: Id, t: Tree, i: nat)
    requires g.Valid() && g.Has(u) && g.At(u).Union? && Unfolds(g, u, t)
    requires var leaves := g.UnionOptions(g.Followed(u));
             && i < |leaves| && g.nodes[leaves[i]] !in {Nil, ErrorTy, Never}
             && forall j :: 0 <= j < |leaves| && j != i ==> g.nodes[leaves[j]] in {Nil, ErrorTy, Never}
    ensures var leaves := g.UnionOptions(g.Followed(u));
            && i < |t.options| && t.options[i].Some? && g.Has(leaves[i]) && Unfolds(g, leaves[i], t.options[i].value)
            && Whole(g, t) == Whole(g, t.options[i].value)
  {
    var leaves := g.UnionOptions(g.Followed(u));
    forall j | 0 <= j < |leaves| ensures |t.options| == |leaves| && UnfoldsOption(g, leaves[j], t.options[j]) {
      OptionUnfolds(g, leaves, t.options, j);
    }
    LoneOption(g, t.options, i);
  }

  /** A union with an option of any other kind that offers nothing completes to nothing. */
  lemma OptionThatOffersNothing(g: Graph, u: Id, t: Tree, j: nat)
    requires g.Valid() && g.Has(u) && g.At(u).Union? && Unfolds(g, u, t)
    requires var leaves := g.UnionOptions(g.Followed(u)); j < |leaves| && g.nodes[leaves[j]] !in {Nil, ErrorTy, Never}
    ensures j < |t.options| && t.options[j].Some?
    ensures Whole(g, t.options[j].value) == map[] ==> Whole(g, t) == map[]
  {
    OptionUnfolds(g, g.UnionOptions(g.Followed(u)), t.options, j);
    if Whole(g, t.options[j].value) == map[] { NothingIsCommon(g, t.options, j); }
  }

  lemma NothingIsCommon(g: Graph, ts: seq<Option<Tree>>, j: nat)
    requires j < |ts| && ts[j].Some? && Whole(g, ts[j].value) == map[]
    ensures WholeOfOptions(g, ts) == map[]
  {
    hide WholeOfOptions, Whole, Offered;
    assert ts[j] in ts && Takes(ts[j]);
    forall k ensures k !in WholeOfOptions(g, ts) {
      OptionKeysAreOffers(g, ts, k);
      WholeKeysAreOffers(g, ts[j], k);
    }
  }

  /** Options that are no unions are taken as they stand, in their order. */
  lemma {:induction false} FlatOptions(g: Graph, xs: seq<Id>, entered: set<Id>)
    requires g.Valid() && g.HasAll(xs) && entered <= g.nodes.Keys && forall x :: x in xs ==> !g.At(x).Union?
    ensures g.Options(xs, entered) == seq(|xs|, i requires 0 <= i < |xs| => g.Followed(xs[i]))
    decreases |xs|
  {
    if xs != [] {
      assert xs[0] in xs;
      FlatOptions(g, xs[1..], entered);
    }
  }

  /** Whatever follows in a union comes after the options found before. */
  lemma {:induction false} EarlierOptionsFirst(g: Graph, xs: seq<Id>, ys: seq<Id>, entered: set<Id>)
    requires g.Valid() && g.HasAll(xs) && g.HasAll(ys) && entered <= g.nodes.Keys
    ensures g.Options(xs, entered) <= g.Options(xs + ys, entered)
    decreases g.nodes.Keys - entered, |xs|
  {
    if xs != [] {
      assert g.Has(xs[0]);
      var f, rest := g.Followed(xs[0]), xs[1..];
      assert (xs + ys)[0] == xs[0] && (xs + ys)[1..] == rest + ys;
      if !g.nodes[f].Union? || f in entered {
        EarlierOptionsFirst(g, rest, ys, entered);
      } else {
        assert g.HasChildren(g.nodes[f]);
        assert g.nodes[f].options + (rest + ys) == (g.nodes[f].options + rest) + ys;
        EarlierOptionsFirst(g, g.nodes[f].options + rest, ys, entered + {f});
      }
    }
  }

  /** A class whose parents are all classes. */
  predicate Classes(t: Tree)
    decreases t
  {
    t.ExternTree? && (t.parent.Some? ==> Classes(t.parent.value))
  }

  /** The type of a property in the nearest class that lets it be read. */
  function Nearest(t: Tree, k: string): Option<Id>
    requires Classes(t)
    decreases t
  {
    if Readable(t.props, k) then t.props[k]
    else if t.parent.Some? then Nearest(t.parent.value, k)
    else None
  }

  /** Among classes the nearest wins: what is added to the entries so far is, name by name, the
      property of the nearest class that has it, listed for the class that the search came
      from; nothing that is there is replaced. */
  lemma {:induction false} NearestClassWins(g: Graph, t: Tree, result: Entries, container: Option<Id>, k: string)
    requires Classes(t)
    ensures var r, near := Weak(g, t, container) + result + Strong(g, t, container), Nearest(t, k);
            && (k in r <==> k in result || near.Some?)
            && (k in result ==> r[k] == result[k])
            && (k !in result && near.Some? ==>
                  r[k] == PropEntry(g.Followed(near.value), if container.Some? then container else Some(t.id)))
    decreases t
  {
    if t.parent.Some? {
      var c := if container.Some? then container else Some(t.id);
      NearestClassWins(g, t.parent.value, result, c, k);
      NoKeysOfClasses(g, t.parent.value, c);
    }
  }

  lemma {:induction false} NoKeysOfClasses(g: Graph, t: Tree, container: Option<Id>)
    requires Classes(t)
    ensures Strong(g, t, container) == map[]
    decreases t
  {
    if t.parent.Some? { NoKeysOfClasses(g, t.parent.value, if container.Some? then container else Some(t.id)); }
  }

  // ---- the options of a union ----

  /** A way from one of the types through unions, none of them entered before, to a type that
      is no union. */
  ghost predicate Way(g: Graph, work: seq<Id>, entered: set<Id>, path: seq<Id>) {
    && path != [] && Among(g, work, path[0])
    && (forall i :: 0 <= i < |path| - 1 ==> Enters(g, entered, path, i))
    && path[|path| - 1] in g.nodes && !g.nodes[path[|path| - 1]].Union?
  }

  ghost predicate Among(g: Graph, xs: seq<Id>, f: Id) {
    exists x :: x in xs && g.Followed(x) == f
  }

  ghost predicate Enters(g: Graph, entered: set<Id>, path: seq<Id>, i: nat)
    requires i + 1 < |path|
  {
    path[i] in g.nodes && g.nodes[path[i]].Union? && path[i] !in entered && Among(g, g.nodes[path[i]].options, path[i + 1])
  }

  lemma AmongBoth(g: Graph, xs: seq<Id>, ys: seq<Id>, f: Id)
    ensures Among(g, xs + ys, f) <==> Among(g, xs, f) || Among(g, ys, f)
  {
    assert forall x :: x in xs + ys <==> x in xs || x in ys;
  }

  /** Whether a way leads there. */
  ghost predicate Leads(g: Graph, work: seq<Id>, entered: set<Id>, x: Id) {
    exists path :: Way(g, work, entered, path) && path[|path| - 1] == x
  }

  /** The leaves found are just the types that such a way leads to: no union ends early, and
      cycles of unions hide nothing. */
  lemma {:induction false} OptionsAreReached(g: Graph, work: seq<Id>, entered: set<Id>, x: Id)
    requires g.Valid() && g.HasAll(work) && entered <= g.nodes.Keys
    ensures x in g.Options(work, entered) <==> Leads(g, work, entered, x)
    decreases g.nodes.Keys - entered, |work|
  {
    if work == [] {
      assert forall f :: !Among(g, work, f);
    } else {
      assert g.Has(work[0]);
      var f, rest := g.Followed(work[0]), work[1..];
      assert work == [work[0]] + rest;
      if !g.nodes[f].Union? {
        OptionsAreReached(g, rest, entered, x);
        LeafFirst(g, work, entered, x);
      } else if f in entered {
        OptionsAreReached(g, rest, entered, x);
        EnteredFirst(g, work, entered, x);
      } else {
        assert g.HasChildren(g.nodes[f]);
        OptionsAreReached(g, g.nodes[f].options + rest, entered + {f}, x);
        UnionFirst(g, work, entered, f, x);
      }
    }
  }

  lemma FirstOrRest(g: Graph, work: seq<Id>, f: Id)
    requires work != []
    ensures Among(g, work, f) <==> f == g.Followed(work[0]) || Among(g, work[1..], f)
  {
    assert work == [work[0]] + work[1..];
    AmongBoth(g, [work[0]], work[1..], f);
    assert work[0] in [work[0]];
  }

  lemma LeafFirst(g: Graph, work: seq<Id>, entered: set<Id>, x: Id)
    requires work != [] && g.Followed(work[0]) in g.nodes && !g.nodes[g.Followed(work[0])].Union?
    ensures Leads(g, work, entered, x) <==> x == g.Followed(work[0]) || Leads(g, work[1..], entered, x)
  {
    var f := g.Followed(work[0]);
    hide Among;
    if path :| Way(g, work, entered, path) && path[|path| - 1] == x {
      FirstOrRest(g, work, path[0]);
      if |path| > 1 { assert Enters(g, entered, path, 0); }
      if path[0] != f { assert Way(g, work[1..], entered, path); }
    }
    FirstOrRest(g, work, f);
    assert Way(g, work, entered, [f]);
    if path :| Way(g, work[1..], entered, path) && path[|path| - 1] == x {
      FirstOrRest(g, work, path[0]);
      assert Way(g, work, entered, path);
    }
  }

  lemma EnteredFirst(g: Graph, work: seq<Id>, entered: set<Id>, x: Id)
    requires work != [] && g.Followed(work[0]) in entered && g.Followed(work[0]) in g.nodes && g.nodes[g.Followed(work[0])].Union?
    ensures Leads(g, work, entered, x) <==> Leads(g, work[1..], entered, x)
  {
    hide Among;
    if path :| Way(g, work, entered, path) && path[|path| - 1] == x {
      FirstOrRest(g, work, path[0]);
      if |path| > 1 { assert Enters(g, entered, path, 0); }
      assert Way(g, work[1..], entered, path);
    }
    if path :| Way(g, work[1..], entered, path) && path[|path| - 1] == x {
      FirstOrRest(g, work, path[0]);
      assert Way(g, work, entered, path);
    }
  }

  lemma UnionFirst(g: Graph, work: seq<Id>, entered: set<Id>, f: Id, x: Id)
    requires work != [] && f == g.Followed(work[0]) && f !in entered && f in g.nodes && g.nodes[f].Union?
    ensures Leads(g, work, entered, x) <==> Leads(g, g.nodes[f].options + work[1..], entered + {f}, x)
  {
    var deeper := g.nodes[f].options + work[1..];
    hide Among;
    if path :| Way(g, work, entered, path) && path[|path| - 1] == x {
      AfterLast(g, work, entered, f, path, |path| - 1);
    }
    if path :| Way(g, deeper, entered + {f}, path) && path[|path| - 1] == x {
      AmongBoth(g, g.nodes[f].options, work[1..], path[0]);
      FirstOrRest(g, work, path[0]);
      forall i | 0 <= i < |path| - 1 ensures Enters(g, entered, path, i) { assert Enters(g, entered + {f}, path, i); }
      if Among(g, work[1..], path[0]) {
        assert Way(g, work, entered, path);
      } else {
        var longer := [f] + path;
        FirstOrRest(g, work, f);
        forall i | 0 <= i < |longer| - 1 ensures Enters(g, entered, longer, i) {
          if i > 0 { assert Enters(g, entered, path, i - 1); }
        }
        assert Way(g, work, entered, longer) && longer[|longer| - 1] == x;
      }
    }
  }

  /** What comes after the last visit to `f` is a way that does without it. */
  lemma {:induction false} AfterLast(g: Graph, work: seq<Id>, entered: set<Id>, f: Id, path: seq<Id>, n: nat)
    requires work != [] && f == g.Followed(work[0]) && f in g.nodes && g.nodes[f].Union?
    requires Way(g, work, entered, path) && n < |path| && forall i :: n <= i < |path| ==> path[i] != f
    ensures Leads(g, g.nodes[f].options + work[1..], entered + {f}, path[|path| - 1])
    decreases n
  {
    var deeper := g.nodes[f].options + work[1..];
    hide Among;
    if n > 0 && path[n - 1] != f {
      AfterLast(g, work, entered, f, path, n - 1);
    } else {
      var rest := path[n..];
      if n > 0 { assert Enters(g, entered, path, n - 1); } else { FirstOrRest(g, work, path[0]); }
      AmongBoth(g, g.nodes[f].options, work[1..], rest[0]);
      forall i | 0 <= i < |rest| - 1 ensures Enters(g, entered + {f}, rest, i) {
        assert Enters(g, entered, path, n + i);
      }
      assert Way(g, deeper, entered + {f}, rest) && rest[|rest| - 1] == path[|path| - 1];
    }
  }

  /** The cases in which the completion has its compositional meaning. */
  ghost predicate Composes(g: Graph, x: Id, t: Tree, seen: set<Id>, result: Entries)
    requires g.Valid() && g.Has(x)
  {
    Unfolds(g, x, t) && Apart(g, t) && Ids(t) !! seen && (t.UnionTree? ==> result == map[])
  }

  ghost function ValueOr(t: Option<Tree>, default_: Tree): Tree {
    if t.Some? then t.value else default_
  }

  lemma Assoc<K, V>(a: map<K, V>, b: map<K, V>, c: map<K, V>)
    ensures (a + b) + c == a + (b + c)
  {
  }

  lemma Unit<K, V>(a: map<K, V>)
    ensures map[] + a == a && a + map[] == a
  {
  }

  lemma Sandwich<K, V>(a: map<K, V>, b: map<K, V>, r: map<K, V>, c: map<K, V>, d: map<K, V>)
    ensures a + (b + r + c) + d == (a + b) + r + (c + d)
  {
    Assoc(b, r, c);
    Assoc(a, b, r + c);
    Assoc(a + b, r, c);
    Assoc((a + b) + r, c, d);
  }

  lemma WholeAlone(g: Graph, t: Tree, result: Entries)
    requires result == Weak(g, t, None) + map[] + Strong(g, t, None)
    ensures result == Whole(g, t)
  {
    Unit(Weak(g, t, None));
  }

  // ---- the method ----

  /** Unions and intersections not seen yet: what a restart with a smaller set keeps. */
  ghost function Branching(g: Graph, seen: set<Id>): set<Id> {
    set x | x in g.nodes && (g.nodes[x].Union? || g.nodes[x].Intersection?) && x !in seen
  }

  lemma LessToSee(g: Graph, seen: set<Id>, f: Id)
    requires f in g.nodes && f !in seen
    ensures Branching(g, seen + {f}) <= Branching(g, seen) && g.nodes.Keys - (seen + {f}) < g.nodes.Keys - seen
    ensures g.nodes[f].Union? ==> Branching(g, seen + {f}) < Branching(g, seen)
  {
    assert f in g.nodes.Keys - seen && f !in g.nodes.Keys - (seen + {f});
    if g.nodes[f].Union? { assert f in Branching(g, seen) && f !in Branching(g, seen + {f}); }
  }

  /** `fillProps`: readable properties, unless something of that name is there already. */
  method FillProps(g: Graph, props: Props, result: Entries, container: Option<Id>) returns (result': Entries)
    ensures result' == g.Own(props, container) + result
  {
    result' := result;
    ghost var own := g.Own(props, container);
    var names := props.Keys;
    while names != {}
      invariant names <= props.Keys
      invariant forall k :: k in result' <==> k in result || (k in own && k !in names)
      invariant forall k :: k in result' ==> result'[k] == if k in result then result[k] else own[k]
      decreases names
    {
      var name :| name in names;
      names := names - {name};
      if name !in result' && name != PARSE_NAME_ERROR && props[name].Some? {
        result' := result'[name := PropEntry(g.Followed(props[name].value), container)];
      }
    }
  }

  method FillStringKeys(keys: seq<string>, result: Entries, container: Option<Id>) returns (result': Entries)
    ensures result' == result + KeyEntries((set k | k in keys), container)
  {
    result' := result;
    for i := 0 to |keys|
      invariant result' == result + KeyEntries((set k | k in keys[..i]), container)
    {
      assert keys[..i + 1] == keys[..i] + [keys[i]];
      result' := result'[keys[i] := StringEntry(container)];
    }
    assert keys[..|keys|] == keys;
  }

  /** The recursion ends on every graph, cyclic or not: what can still be entered shrinks,
      except when a later option of a union starts over, and then an unseen union or
      intersection has gone for good. Where the type unfolds into a finite tree whose
      pieces stay apart, the outcome is the compositional one. */
  method AutocompleteProps(g: Graph, ty: Id, result: Entries, seen: set<Id>, container: Option<Id>, ghost t: Tree)
    returns (result': Entries, seen': set<Id>)
    requires g.Valid() && g.Has(ty) && seen <= g.nodes.Keys
    ensures seen <= seen' <= g.nodes.Keys
    ensures Composes(g, ty, t, seen, result) ==>
              result' == Weak(g, t, container) + result + Strong(g, t, container) && seen' <= seen + Ids(t)
    decreases Branching(g, seen), g.nodes.Keys - seen, 0
  {
    hide Branching;
    result', seen' := result, seen;
    var f := g.Followed(ty);
    if f in seen {
      return;
    }
    assert g.HasChildren(g.nodes[f]);
    seen' := seen + {f};
    LessToSee(g, seen, f);
    ghost var ok := Composes(g, ty, t, seen, result);
    hide WholeOfParts, WholeOfOptions, AllIds, OptionIds, UnfoldsAll, UnfoldsOptions, ApartAll, ApartOptions,
         WeakOpt, StrongOpt, UnfoldsOpt, UnfoldsIndex, ApartOpt;
    match g.nodes[f] {
      case Extern(props, parent) =>
        result', seen' := CompleteExtern(g, f, result', seen', container, if ok then t.parent else None);
      case Table(props, indexer) =>
        result' := FillProps(g, props, result', container);
        var keys := g.StringKeys(indexer);
        if ok {
          StringKeysAre(g, indexer, t.keys);
          assert t.keys == set k | k in keys;
        }
        result' := FillStringKeys(keys, result', container);
      case Metatable(table, metatable) =>
        result', seen' := CompleteMetatable(g, f, result', seen', if ok then t.table else t, if ok then t.index else None);
      case Union(options) =>
        result', seen' := CompleteOptions(g, g.UnionOptions(f), result', seen', if ok then t.options else []);
        Unit(result');
      case _ =>
        result', seen' := CompleteOther(g, ty, result', seen, seen', container, t);
    }
  }

  /** The kinds of type that are left. */
  method CompleteOther(g: Graph, ty: Id, result: Entries, ghost before: set<Id>, seen: set<Id>, container: Option<Id>, ghost t: Tree)
    returns (result': Entries, seen': set<Id>)
    requires g.Valid() && g.Has(ty) && before <= seen <= g.nodes.Keys && seen == before + {g.Followed(ty)}
    requires var node := g.At(ty); !node.Extern? && !node.Table? && !node.Metatable? && !node.Union?
    ensures seen <= seen' <= g.nodes.Keys
    ensures Composes(g, ty, t, before, result) ==>
              result' == Weak(g, t, container) + result + Strong(g, t, container) && seen' <= before + Ids(t)
    decreases Branching(g, seen), g.nodes.Keys - seen, 3
  {
    hide WholeOfParts, WholeOfOptions, AllIds, OptionIds, UnfoldsAll, UnfoldsOptions, ApartAll, ApartOptions,
         WeakOpt, StrongOpt, UnfoldsOpt, UnfoldsIndex, SameKeys, ApartOpt, Branching;
    result', seen' := result, seen;
    ghost var ok := Composes(g, ty, t, before, result);
    assert g.HasChildren(g.At(ty));
    match g.At(ty) {
      case Intersection(parts) =>
        result' := CompleteParts(g, parts, result', seen', if ok then t.parts else []);
        Unit(result');
      case Primitive(shared) =>
        result', seen' := CompletePrimitive(g, shared, result', seen', if ok then t.index else None);
      case StringSingleton(_) =>
        result', seen' := AutocompleteProps(g, g.stringType, result', seen', None, if ok then t.stringTree else t);
      case _ =>
        Unit(result);
    }
  }

  /** A primitive: what the `__index` of its shared metatable leads to. */
  method CompletePrimitive(g: Graph, shared: Option<Id>, result: Entries, seen: set<Id>, ghost index: Option<Tree>)
    returns (result': Entries, seen': set<Id>)
    requires g.Valid() && g.HasOpt(shared) && seen <= g.nodes.Keys
    ensures seen <= seen' <= g.nodes.Keys
    ensures UnfoldsIndex(g, shared, index) && ApartOpt(g, index) && OptIds(index) !! seen ==>
              result' == WeakOpt(g, index, None) + result + StrongOpt(g, index, None) && seen' <= seen + OptIds(index)
    decreases Branching(g, seen), g.nodes.Keys - seen, 2
  {
    result', seen' := result, seen;
    if shared.Some? && shared.value in g.nodes && g.nodes[shared.value].Table? {
      assert g.HasChildren(g.nodes[shared.value]);
      if UnfoldsIndex(g, shared, index) { IndexIsFound(g, shared.value, index); }
      result', seen' := FillMetatableProps(g, g.nodes[shared.value].props, result', seen', index);
    } else {
      Unit(result);
    }
  }

  /** A class: its own readable properties, then those of its parents that it does not
      override. */
  method CompleteExtern(g: Graph, f: Id, result: Entries, seen: set<Id>, container: Option<Id>, ghost up: Option<Tree>)
    returns (result': Entries, seen': set<Id>)
    requires g.Valid() && f in seen && seen <= g.nodes.Keys && g.nodes[f].Extern?
    ensures seen <= seen' <= g.nodes.Keys
    ensures g.HasOpt(g.nodes[f].parent) && UnfoldsOpt(g, g.nodes[f].parent, up) && ApartOpt(g, up) && OptIds(up) !! seen ==>
              var c := if container.Some? then container else Some(f);
              && result' == (WeakOpt(g, up, c) + g.Own(g.nodes[f].props, c)) + result + StrongOpt(g, up, c)
              && seen' <= seen + OptIds(up)
    decreases Branching(g, seen), g.nodes.Keys - seen, 1
  {
    assert g.HasChildren(g.nodes[f]);
    var Extern(props, parent) := g.nodes[f];
    var c := if container.Some? then container else Some(f);
    ghost var own := g.Own(props, c);
    seen' := seen;
    result' := FillProps(g, props, result, c);
    if parent.Some? {
      ghost var tree := ValueOr(up, LeafTree(0));
      result', seen' := AutocompleteProps(g, parent.value, result', seen', c, tree);
      Assoc(Weak(g, tree, c), own, result);
    } else {
      Unit(own);
      Unit(own + result);
    }
  }

  /** A table with a metatable: the table first, then what `__index` leads to. */
  method CompleteMetatable(g: Graph, f: Id, result: Entries, seen: set<Id>, ghost sub: Tree, ghost index: Option<Tree>)
    returns (result': Entries, seen': set<Id>)
    requires g.Valid() && f in seen && seen <= g.nodes.Keys && g.nodes[f].Metatable? && g.HasChildren(g.nodes[f])
    ensures seen <= seen' <= g.nodes.Keys
    ensures Composes(g, g.nodes[f].table, sub, seen, result) && UnfoldsIndex(g, Some(g.Followed(g.nodes[f].metatable)), index)
            && ApartOpt(g, index) && OptIds(index) !! seen + Ids(sub) ==>
              && result' == (WeakOpt(g, index, None) + Weak(g, sub, None)) + result + (Strong(g, sub, None) + StrongOpt(g, index, None))
              && seen' <= seen + Ids(sub) + OptIds(index)
    decreases Branching(g, seen), g.nodes.Keys - seen, 2
  {
    var Metatable(table, metatable) := g.nodes[f];
    result', seen' := AutocompleteProps(g, table, result, seen, None, sub);
    assert g.HasChildren(g.At(metatable));
    if g.At(metatable).Table? {
      if UnfoldsIndex(g, Some(g.Followed(metatable)), index) { IndexIsFound(g, g.Followed(metatable), index); }
      result', seen' := FillMetatableProps(g, g.At(metatable).props, result', seen', index);
    } else {
      Unit(result');
    }
    Sandwich(WeakOpt(g, index, None), Weak(g, sub, None), result, Strong(g, sub, None), StrongOpt(g, index, None));
  }

  method FillMetatableProps(g: Graph, props: Props, result: Entries, seen: set<Id>, ghost index: Option<Tree>)
    returns (result': Entries, seen': set<Id>)
    requires g.Valid() && g.HasProps(props) && seen <= g.nodes.Keys
    ensures seen <= seen' <= g.nodes.Keys
    ensures UnfoldsOpt(g, g.IndexTarget(props), index) && ApartOpt(g, index) && OptIds(index) !! seen ==>
              result' == WeakOpt(g, index, None) + result + StrongOpt(g, index, None) && seen' <= seen + OptIds(index)
    decreases Branching(g, seen), g.nodes.Keys - seen, 1
  {
    result', seen' := result, seen;
    var target := g.IndexTarget(props);
    if target.Some? {
      result', seen' := AutocompleteProps(g, target.value, result', seen', None, ValueOr(index, LeafTree(0)));
    } else {
      Unit(result);
    }
  }

  /** All properties of every part: the first part that has a name provides its entry. */
  method CompleteParts(g: Graph, parts: seq<Id>, result: Entries, seen: set<Id>, ghost ts: seq<Tree>) returns (result': Entries)
    requires g.Valid() && g.HasAll(parts) && seen <= g.nodes.Keys
    ensures UnfoldsAll(g, parts, ts) && ApartAll(g, ts) && AllIds(ts) !! seen ==> result' == WholeOfParts(g, ts) + result
    decreases Branching(g, seen), g.nodes.Keys - seen, 1
  {
    result' := result;
    ghost var ok := UnfoldsAll(g, parts, ts) && ApartAll(g, ts) && AllIds(ts) !! seen;
    ghost var rest := ts;
    assert parts[0..] == parts;
    for i := 0 to |parts|
      invariant ok ==> UnfoldsAll(g, parts[i..], rest) && ApartAll(g, rest) && AllIds(rest) !! seen
      invariant ok ==> WholeOfParts(g, rest) + result' == WholeOfParts(g, ts) + result
    {
      assert parts[i..][1..] == parts[i + 1..];
      var inner, innerSeen := AutocompleteProps(g, parts[i], map[], seen, None, if ok then rest[0] else LeafTree(0));
      if ok {
        WholeAlone(g, rest[0], inner);
        Assoc(WholeOfParts(g, rest[1..]), inner, result');
        rest := rest[1..];
      }
      result' := inner + result';
    }
    assert parts[|parts|..] == [];
    Unit(result');
  }

  /** The properties common to all options that are not skipped. */
  method CompleteOptions(g: Graph, options: seq<Id>, result: Entries, seen: set<Id>, ghost ts: seq<Option<Tree>>)
    returns (result': Entries, seen': set<Id>)
    requires g.Valid() && g.HasAll(options) && seen <= g.nodes.Keys
    ensures seen <= seen' <= g.nodes.Keys
    ensures UnfoldsOptions(g, options, ts) && ApartOptions(g, ts) && OptionIds(ts) !! seen && result == map[] ==>
              result' == WholeOfOptions(g, ts) && seen' <= seen + OptionIds(ts)
    decreases Branching(g, seen), g.nodes.Keys, 2
  {
    ghost var ok := UnfoldsOptions(g, options, ts) && ApartOptions(g, ts) && OptionIds(ts) !! seen && result == map[];
    ghost var rest := ts;
    result', seen' := result, seen;
    var i := 0;
    assert options[0..] == options;
    while i < |options| && g.Skippable(options[i])
      invariant 0 <= i <= |options|
      invariant ok ==> UnfoldsOptions(g, options[i..], rest) && ApartOptions(g, rest) && OptionIds(rest) <= OptionIds(ts)
      invariant ok ==> WholeOfOptions(g, rest) == WholeOfOptions(g, ts)
    {
      assert options[i..][1..] == options[i + 1..];
      if ok { rest := rest[1..]; }
      i := i + 1;
    }
    if i == |options| {
      return;
    }
    ghost var first := if ok then rest[0] else Some(LeafTree(0));
    result', seen' := AutocompleteProps(g, options[i], result', seen', None, first.value);
    assert options[i..][1..] == options[i + 1..];
    if ok {
      WholeAlone(g, first.value, result');
      assert result' == WholeOfOption(g, rest[0]);
      rest := rest[1..];
    }
    result' := KeepCommon(g, options[i + 1..], result', seen', seen, rest);
  }

  /** Every later option starts over, remembering only the unions and intersections seen,
      and takes away the properties that it does not have. */
  method KeepCommon(g: Graph, options: seq<Id>, result: Entries, seen: set<Id>, ghost earlier: set<Id>, ghost ts: seq<Option<Tree>>)
    returns (result': Entries)
    requires g.Valid() && g.HasAll(options) && earlier <= seen <= g.nodes.Keys
    ensures UnfoldsOptions(g, options, ts) && ApartOptions(g, ts) && BranchIds(g, seen) !! OptionIds(ts) ==>
              result' == KeepAll(g, result, ts)
    decreases Branching(g, earlier), g.nodes.Keys, 1
  {
    ghost var ok := UnfoldsOptions(g, options, ts) && ApartOptions(g, ts) && BranchIds(g, seen) !! OptionIds(ts);
    ghost var rest := ts;
    result' := result;
    var restart := set x | x in seen && (g.nodes[x].Union? || g.nodes[x].Intersection?);
    assert restart == BranchIds(g, seen) && Branching(g, restart) <= Branching(g, earlier);
    assert options[0..] == options;
    for i := 0 to |options|
      invariant ok ==> UnfoldsOptions(g, options[i..], rest) && ApartOptions(g, rest) && OptionIds(rest) <= OptionIds(ts)
      invariant ok ==> KeepAll(g, result', rest) == KeepAll(g, result, ts)
    {
      assert options[i..][1..] == options[i + 1..];
      if !g.Skippable(options[i]) {
        var inner, innerSeen := AutocompleteProps(g, options[i], map[], restart, None, if ok then rest[0].value else LeafTree(0));
        if ok {
          WholeAlone(g, rest[0].value, inner);
          assert WholeOfOption(g, rest[0]) == inner;
        }
        result' := Restricted(result', inner);
      }
      if ok { rest := rest[1..]; }
    }
    assert options[|options|..] == [];
  }
}
