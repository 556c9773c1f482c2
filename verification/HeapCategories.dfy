/** Splitting a heap graph by memory category (tools/heapgraph.py). */
module HeapCategories {

  import opened Basics

  datatype Object = Object(size: nat, cat: nat)

  datatype Amount = Amount(size: nat, count: nat)

  /** A node of the graph: what it counts itself, and its children in order. */
  datatype Branch = Node(name: string, count: nat, size: nat, objects: seq<Object>, children: seq<Branch>)

  /** As the walk leaves it: every node counts its own objects. */
  ghost predicate Counted(t: Branch) {
    t.size == SizeOf(t.objects) && t.count == |t.objects| && forall c :: c in t.children ==> Counted(c)
  }

  function SizeOf(objects: seq<Object>): nat {
    if objects == [] then 0 else objects[0].size + SizeOf(objects[1..])
  }

  /** The size and the number of objects in a whole tree, as its nodes count them. */
  function Total(t: Branch): Amount
    decreases t
  {
    Plus(Amount(t.size, t.count), TotalAll(t.children))
  }

  function TotalAll(ts: seq<Branch>): Amount
    decreases ts
  {
    if ts == [] then Amount(0, 0) else Plus(Total(ts[0]), TotalAll(ts[1..]))
  }

  function Plus(a: Amount, b: Amount): Amount {
    Amount(a.size + b.size, a.count + b.count)
  }

  // ---- the program ----

  /** `annotateContainedCategories`: categories below `start` become category 0. */
  function Annotated(t: Branch, start: nat): Branch
    decreases t
  {
    t.(objects := Recategorised(t.objects, start), children := AnnotatedAll(t.children, start))
  }

  function AnnotatedAll(ts: seq<Branch>, start: nat): (r: seq<Branch>)
    ensures |r| == |ts|
    decreases ts
  {
    if ts == [] then [] else [Annotated(ts[0], start)] + AnnotatedAll(ts[1..], start)
  }

  function Recategorised(objects: seq<Object>, start: nat): (r: seq<Object>)
    ensures |r| == |objects|
  {
    if objects == [] then []
    else [objects[0].(cat := Merged(objects[0].cat, start))] + Recategorised(objects[1..], start)
  }

  function Merged(category: nat, start: nat): nat {
    if category < start then 0 else category
  }

  /** The `categories` set of a node: those of its objects and of all below. */
  function Categories(t: Branch): set<nat>
    decreases t
  {
    (set o | o in t.objects :: o.cat) + CategoriesAll(t.children)
  }

  function CategoriesAll(ts: seq<Branch>): set<nat>
    decreases ts
  {
    if ts == [] then {} else Categories(ts[0]) + CategoriesAll(ts[1..])
  }

  function Matching(objects: seq<Object>, category: nat): seq<Object> {
    if objects == [] then []
    else (if objects[0].cat == category then [objects[0]] else []) + Matching(objects[1..], category)
  }

  /** `filteredTreeForCategory`: the part of the tree in one category, if there is any. */
  function Filtered(t: Branch, category: nat): Option<Branch>
    decreases t
  {
    var kept := FilteredAll(t.children, category);
    var own := Matching(t.objects, category);
    if kept == [] && own == [] then None else Some(Node(t.name, |own|, SizeOf(own), [], kept))
  }

  /** Only children that contain the category are filtered at all. */
  function FilteredAll(ts: seq<Branch>, category: nat): seq<Branch>
    decreases ts
  {
    if ts == [] then []
    else
      var rest := FilteredAll(ts[1..], category);
      var first := if category in Categories(ts[0]) then Filtered(ts[0], category) else None;
      if first.Some? then [first.value] + rest else rest
  }

  /** `splitIntoCategories`: the filtered trees of the first `n` categories, each under the
      name of its category; a second tree of the same name takes the place of the first. */
  function Split(t: Branch, names: nat -> string, n: nat): seq<Branch> {
    if n == 0 then []
    else
      var filtered := Filtered(t, n - 1);
      if filtered.None? then Split(t, names, n - 1)
      else Under(Split(t, names, n - 1), names(n - 1), filtered.value.(name := names(n - 1)))
  }

  function Under(ts: seq<Branch>, name: string, t: Branch): seq<Branch> {
    if ts == [] then [t]
    else if ts[0].name == name then [t] + ts[1..]
    else [ts[0]] + Under(ts[1..], name, t)
  }

  // ---- what it conserves ----

  /** The size and the number of a tree's objects in one category. */
  ghost function Share(t: Branch, category: nat): Amount
    decreases t
  {
    Plus(Amount(SizeOf(Matching(t.objects, category)), |Matching(t.objects, category)|), ShareAll(t.children, category))
  }

  ghost function ShareAll(ts: seq<Branch>, category: nat): Amount
    decreases ts
  {
    if ts == [] then Amount(0, 0) else Plus(Share(ts[0], category), ShareAll(ts[1..], category))
  }

  lemma {:induction false} NoneMatches(objects: seq<Object>, category: nat)
    requires forall o :: o in objects ==> o.cat != category
    ensures Matching(objects, category) == []
  {
    if objects != [] {
      assert objects[0] in objects;
      NoneMatches(objects[1..], category);
    }
  }

  /** A category that the annotation does not list has no share. */
  lemma {:induction false} AbsentHasNoShare(t: Branch, category: nat)
    requires category !in Categories(t)
    ensures Share(t, category) == Amount(0, 0)
    decreases t
  {
    NoneMatches(t.objects, category);
    AbsentHasNoShareAll(t.children, category);
  }

  lemma {:induction false} AbsentHasNoShareAll(ts: seq<Branch>, category: nat)
    requires category !in CategoriesAll(ts)
    ensures ShareAll(ts, category) == Amount(0, 0)
    decreases ts
  {
    if ts != [] {
      AbsentHasNoShare(ts[0], category);
      AbsentHasNoShareAll(ts[1..], category);
    }
  }

  /** The filtered tree counts exactly the category's share, and it is left out exactly
      when there is no object of the category anywhere in the tree. */
  lemma {:induction false} FilteredCountsShare(t: Branch, category: nat)
    ensures match Filtered(t, category)
            case Some(r) => Total(r) == Share(t, category) && category in Categories(t)
            case None => Share(t, category) == Amount(0, 0) && category !in Categories(t)
    decreases t
  {
    hide FilteredAll, TotalAll, ShareAll, CategoriesAll, Matching;
    FilteredAllCountsShare(t.children, category);
    MatchingTells(t.objects, category);
    NothingInTotal();
  }

  lemma {:induction false} FilteredAllCountsShare(ts: seq<Branch>, category: nat)
    ensures TotalAll(FilteredAll(ts, category)) == ShareAll(ts, category)
    ensures FilteredAll(ts, category) == [] <==> category !in CategoriesAll(ts)
    decreases ts
  {
    if ts != [] {
      FilteredAllCountsShare(ts[1..], category);
      if category in Categories(ts[0]) {
        FilteredCountsShare(ts[0], category);
      } else {
        AbsentHasNoShare(ts[0], category);
      }
    }
  }

  lemma {:induction false} MatchingTells(objects: seq<Object>, category: nat)
    ensures Matching(objects, category) == [] <==> category !in (set o | o in objects :: o.cat)
  {
    if objects != [] {
      MatchingTells(objects[1..], category);
      assert objects[0].cat in (set o | o in objects :: o.cat);
      assert forall o :: o in objects <==> o == objects[0] || o in objects[1..];
    }
  }

  /** The shares of the first `n` categories together. */
  ghost function Shares(t: Branch, n: nat): Amount {
    if n == 0 then Amount(0, 0) else Plus(Shares(t, n - 1), Share(t, n - 1))
  }

  /** No two categories that occur in the tree have the same name. */
  ghost predicate NamesTellApart(t: Branch, names: nat -> string, n: nat) {
    forall i, j :: 0 <= i < j < n && i in Categories(t) && j in Categories(t) ==> names(i) != names(j)
  }

  ghost predicate HasName(ts: seq<Branch>, name: string) {
    exists u :: u in ts && u.name == name
  }

  ghost predicate NonEmpty(ts: seq<Branch>) {
    forall u :: u in ts ==> Total(u).count > 0
  }

  lemma Names(head: Branch, rest: seq<Branch>, m: string)
    ensures HasName([head] + rest, m) <==> head.name == m || HasName(rest, m)
  {
    var ts := [head] + rest;
    assert head in ts && forall u :: u in rest ==> u in ts;
  }

  lemma Totals(head: Branch, rest: seq<Branch>)
    ensures TotalAll([head] + rest) == Plus(Total(head), TotalAll(rest))
  {
    assert ([head] + rest)[1..] == rest;
  }

  /** A tree under a new name adds its total; under a known name it replaces another's. */
  lemma {:induction false} UnderAdds(ts: seq<Branch>, name: string, t: Branch)
    requires NonEmpty(ts)
    ensures !HasName(ts, name) ==> TotalAll(Under(ts, name, t)) == Plus(TotalAll(ts), Total(t))
    ensures HasName(ts, name) ==> TotalAll(Under(ts, name, t)).count < TotalAll(ts).count + Total(t).count
  {
    hide Total, TotalAll, HasName;
    if ts == [] {
      assert !HasName(ts, name) by { NoNames(name); }
      NothingInTotal();
      Totals(t, []);
      assert [t] + [] == [t];
    } else {
      var head, rest := ts[0], ts[1..];
      assert ts == [head] + rest && head in ts;
      Names(head, rest, name);
      Totals(head, rest);
      if head.name == name {
        Totals(t, rest);
      } else {
        UnderAdds(rest, name, t);
        Totals(head, Under(rest, name, t));
      }
    }
  }

  lemma NoNames(m: string)
    ensures !HasName([], m)
  {
  }

  /** The name is known afterwards, and no other name is lost or won. */
  lemma {:induction false} UnderNames(ts: seq<Branch>, name: string, t: Branch, m: string)
    requires t.name == name
    ensures HasName(Under(ts, name, t), m) <==> HasName(ts, m) || m == name
  {
    hide HasName;
    if ts == [] {
      NoNames(m);
      Names(t, [], m);
      assert [t] + [] == [t];
    } else {
      var head, rest := ts[0], ts[1..];
      assert ts == [head] + rest;
      Names(head, rest, m);
      if head.name == name {
        Names(t, rest, m);
      } else {
        UnderNames(rest, name, t, m);
        Names(head, Under(rest, name, t), m);
      }
    }
  }

  lemma {:induction false} UnderNonEmpty(ts: seq<Branch>, name: string, t: Branch)
    requires NonEmpty(ts) && Total(t).count > 0
    ensures NonEmpty(Under(ts, name, t))
  {
    hide Total;
    if ts != [] && ts[0].name != name { UnderNonEmpty(ts[1..], name, t); }
  }

  lemma {:induction false} SplitCountsShares(t: Branch, names: nat -> string, n: nat)
    ensures NonEmpty(Split(t, names, n))
    ensures forall m :: HasName(Split(t, names, n), m) <==> exists i :: 0 <= i < n && i in Categories(t) && names(i) == m
    ensures NamesTellApart(t, names, n) ==> TotalAll(Split(t, names, n)) == Shares(t, n)
    ensures TotalAll(Split(t, names, n)).count <= Shares(t, n).count
    ensures !NamesTellApart(t, names, n) ==> TotalAll(Split(t, names, n)).count < Shares(t, n).count
  {
    hide Total, TotalAll, Filtered, Categories, Share, Under;
    if n == 0 {
      assert Split(t, names, n) == [] && TotalAll([]) == Amount(0, 0) by { NothingInTotal(); }
    } else {
      var c, name := n - 1, names(n - 1);
      var before := Split(t, names, c);
      SplitCountsShares(t, names, c);
      FilteredIsPart(t, c, name);
      if c in Categories(t) {
        var part := Filtered(t, c).value.(name := name);
        UnderAdds(before, name, part);
        UnderNonEmpty(before, name, part);
        forall m ensures HasName(Under(before, name, part), m) <==> HasName(before, m) || m == name {
          UnderNames(before, name, part, m);
        }
        if HasName(before, name) {
          var i :| 0 <= i < c && i in Categories(t) && names(i) == name;
          assert !NamesTellApart(t, names, n);
        } else {
          assert NamesTellApart(t, names, n) <==> NamesTellApart(t, names, c);
        }
      } else {
        assert NamesTellApart(t, names, n) <==> NamesTellApart(t, names, c);
      }
    }
  }

  lemma NothingInTotal()
    ensures TotalAll([]) == Amount(0, 0)
  {
  }

  /** One category's filtered tree, under its new name. */
  lemma FilteredIsPart(t: Branch, category: nat, name: string)
    ensures category !in Categories(t) ==> Filtered(t, category).None? && Share(t, category) == Amount(0, 0)
    ensures category in Categories(t) ==>
              Filtered(t, category).Some? && Total(Filtered(t, category).value.(name := name)) == Share(t, category)
              && Share(t, category).count > 0
  {
    FilteredCountsShare(t, category);
    PresentHasShare(t, category);
    if Filtered(t, category).Some? {
      var r := Filtered(t, category).value;
      assert Total(r.(name := name)) == Total(r);
    }
  }

  lemma {:induction false} PresentHasShare(t: Branch, category: nat)
    ensures category in Categories(t) ==> Share(t, category).count > 0
    decreases t
  {
    MatchingTells(t.objects, category);
    PresentHasShareAll(t.children, category);
  }

  lemma {:induction false} PresentHasShareAll(ts: seq<Branch>, category: nat)
    ensures category in CategoriesAll(ts) ==> ShareAll(ts, category).count > 0
    decreases ts
  {
    if ts != [] {
      PresentHasShare(ts[0], category);
      PresentHasShareAll(ts[1..], category);
    }
  }

  /** All categories of the objects in a tree lie below `n`. */
  ghost predicate CategoriesBelow(t: Branch, n: nat)
    decreases t
  {
    (forall o :: o in t.objects ==> o.cat < n) && CategoriesBelowAll(t.children, n)
  }

  ghost predicate CategoriesBelowAll(ts: seq<Branch>, n: nat)
    decreases ts
  {
    ts == [] || (CategoriesBelow(ts[0], n) && CategoriesBelowAll(ts[1..], n))
  }

  ghost function OwnShares(objects: seq<Object>, n: nat): Amount {
    if n == 0 then Amount(0, 0) else Plus(OwnShares(objects, n - 1), Amount(SizeOf(Matching(objects, n - 1)), |Matching(objects, n - 1)|))
  }

  ghost function SharesAll(ts: seq<Branch>, n: nat): Amount {
    if n == 0 then Amount(0, 0) else Plus(SharesAll(ts, n - 1), ShareAll(ts, n - 1))
  }

  lemma {:induction false} SharesApart(t: Branch, n: nat)
    ensures Shares(t, n) == Plus(OwnShares(t.objects, n), SharesAll(t.children, n))
  {
    hide ShareAll, SizeOf, Matching;
    if n > 0 { SharesApart(t, n - 1); }
  }

  lemma {:induction false} SharesAllApart(ts: seq<Branch>, head: Branch, rest: seq<Branch>, n: nat)
    requires ts == [head] + rest
    ensures SharesAll(ts, n) == Plus(Shares(head, n), SharesAll(rest, n))
    decreases n
  {
    hide Share, ShareAll;
    if n > 0 {
      SharesAllApart(ts, head, rest, n - 1);
      assert ShareAll(ts, n - 1) == Plus(Share(head, n - 1), ShareAll(rest, n - 1)) by { ShareOfFirst(ts, n - 1); }
    }
  }

  lemma ShareOfFirst(ts: seq<Branch>, category: nat)
    requires ts != []
    ensures ShareAll(ts, category) == Plus(Share(ts[0], category), ShareAll(ts[1..], category))
  {
    hide Share;
  }

  lemma FirstMatches(objects: seq<Object>, category: nat)
    requires objects != []
    ensures var all, rest := Matching(objects, category), Matching(objects[1..], category);
            if objects[0].cat == category then SizeOf(all) == objects[0].size + SizeOf(rest) && |all| == 1 + |rest|
            else all == rest
  {
    var rest := Matching(objects[1..], category);
    assert ([objects[0]] + rest)[1..] == rest;
  }

  /** One object more counts in its own category only. */
  lemma {:induction false} OwnSharesStep(objects: seq<Object>, n: nat)
    requires objects != []
    ensures OwnShares(objects, n)
         == Plus(OwnShares(objects[1..], n), if objects[0].cat < n then Amount(objects[0].size, 1) else Amount(0, 0))
  {
    hide SizeOf, Matching, OwnShares;
    if n == 0 {
      NoneBelow(objects);
      NoneBelow(objects[1..]);
    } else {
      OwnSharesStep(objects, n - 1);
      FirstMatches(objects, n - 1);
      OneMoreShare(objects, n);
      OneMoreShare(objects[1..], n);
    }
  }

  lemma NoneBelow(objects: seq<Object>)
    ensures OwnShares(objects, 0) == Amount(0, 0)
  {
  }

  lemma OneMoreShare(objects: seq<Object>, n: nat)
    requires n > 0
    ensures OwnShares(objects, n)
         == Plus(OwnShares(objects, n - 1), Amount(SizeOf(Matching(objects, n - 1)), |Matching(objects, n - 1)|))
  {
  }

  lemma {:induction false} NoOwnShares(n: nat)
    ensures OwnShares([], n) == Amount(0, 0) && SharesAll([], n) == Amount(0, 0)
  {
    if n > 0 { NoOwnShares(n - 1); }
  }

  lemma {:induction false} OwnSharesAreAll(objects: seq<Object>, n: nat)
    requires forall o :: o in objects ==> o.cat < n
    ensures OwnShares(objects, n) == Amount(SizeOf(objects), |objects|)
  {
    hide OwnShares;
    if objects == [] {
      NoOwnShares(n);
    } else {
      assert objects[0] in objects;
      OwnSharesStep(objects, n);
      OwnSharesAreAll(objects[1..], n);
    }
  }

  /** Every object has one category, so the shares add up to the total. */
  lemma {:induction false} SharesAreTotal(t: Branch, n: nat)
    requires Counted(t) && CategoriesBelow(t, n)
    ensures Shares(t, n) == Total(t)
    decreases t
  {
    OwnSharesAreAll(t.objects, n);
    SharesApart(t, n);
    SharesAllAreTotal(t.children, n);
  }

  lemma {:induction false} SharesAllAreTotal(ts: seq<Branch>, n: nat)
    requires (forall c :: c in ts ==> Counted(c)) && CategoriesBelowAll(ts, n)
    ensures SharesAll(ts, n) == TotalAll(ts)
    decreases ts
  {
    if ts == [] {
      NoOwnShares(n);
    } else {
      assert ts[0] in ts;
      SharesAllApart(ts, ts[0], ts[1..], n);
      SharesAreTotal(ts[0], n);
      SharesAllAreTotal(ts[1..], n);
    }
  }

  /** Annotation changes categories only, and keeps them in range. */
  lemma {:induction false} AnnotationKeeps(t: Branch, start: nat, n: nat)
    requires Counted(t) && CategoriesBelow(t, n) && n > 0
    ensures Total(Annotated(t, start)) == Total(t)
    ensures Counted(Annotated(t, start)) && CategoriesBelow(Annotated(t, start), n)
    decreases t
  {
    RecategorisedKeeps(t.objects, start, n);
    AnnotationKeepsAll(t.children, start, n);
  }

  lemma {:induction false} AnnotationKeepsAll(ts: seq<Branch>, start: nat, n: nat)
    requires (forall c :: c in ts ==> Counted(c)) && CategoriesBelowAll(ts, n) && n > 0
    ensures TotalAll(AnnotatedAll(ts, start)) == TotalAll(ts)
    ensures (forall c :: c in AnnotatedAll(ts, start) ==> Counted(c)) && CategoriesBelowAll(AnnotatedAll(ts, start), n)
    decreases ts
  {
    if ts != [] {
      assert ts[0] in ts;
      AnnotationKeeps(ts[0], start, n);
      AnnotationKeepsAll(ts[1..], start, n);
      assert AnnotatedAll(ts, start)[1..] == AnnotatedAll(ts[1..], start);
    }
  }

  lemma {:induction false} RecategorisedKeeps(objects: seq<Object>, start: nat, n: nat)
    requires (forall o :: o in objects ==> o.cat < n) && n > 0
    ensures SizeOf(Recategorised(objects, start)) == SizeOf(objects)
    ensures forall o :: o in Recategorised(objects, start) ==> o.cat < n
  {
    if objects != [] {
      assert objects[0] in objects;
      RecategorisedKeeps(objects[1..], start, n);
      assert Recategorised(objects, start)[1..] == Recategorised(objects[1..], start);
    }
  }

  const CATEGORIES: nat := 256

  /** Splitting the annotated graph conserves its total size and count exactly when the
      categories that occur in it have distinct names; otherwise objects are lost. */
  lemma SplitConserves(t: Branch, start: nat, names: nat -> string)
    requires Counted(t) && CategoriesBelow(t, CATEGORIES)
    ensures TotalAll(Split(Annotated(t, start), names, CATEGORIES)) == Total(t)
       <==> NamesTellApart(Annotated(t, start), names, CATEGORIES)
    ensures TotalAll(Split(Annotated(t, start), names, CATEGORIES)).count <= Total(t).count
  {
    AnnotationKeeps(t, start, CATEGORIES);
    SharesAreTotal(Annotated(t, start), CATEGORIES);
    SplitCountsShares(Annotated(t, start), names, CATEGORIES);
  }

  // ---- where in the tree everything stays ----

  /** The size and number of these objects that are in the category. */
  ghost function InCategory(objects: seq<Object>, category: nat): Amount {
    if objects == [] then Amount(0, 0)
    else Plus(if objects[0].cat == category then Amount(objects[0].size, 1) else Amount(0, 0), InCategory(objects[1..], category))
  }

  /** What the nodes of these names, one below the other, count themselves. */
  ghost function AmountAt(ts: seq<Branch>, path: seq<string>): Amount
    decreases ts
  {
    if ts == [] then Amount(0, 0) else Plus(AmountIn(ts[0], path), AmountAt(ts[1..], path))
  }

  ghost function AmountIn(t: Branch, path: seq<string>): Amount
    decreases t
  {
    if path == [] || t.name != path[0] then Amount(0, 0)
    else if |path| == 1 then Amount(t.size, t.count)
    else AmountAt(t.children, path[1..])
  }

  /** The same, but only objects of the category counted. */
  ghost function ShareAt(ts: seq<Branch>, path: seq<string>, category: nat): Amount
    decreases ts
  {
    if ts == [] then Amount(0, 0) else Plus(ShareIn(ts[0], path, category), ShareAt(ts[1..], path, category))
  }

  ghost function ShareIn(t: Branch, path: seq<string>, category: nat): Amount
    decreases t
  {
    if path == [] || t.name != path[0] then Amount(0, 0)
    else if |path| == 1 then InCategory(t.objects, category)
    else ShareAt(t.children, path[1..], category)
  }

  lemma {:induction false} MatchingIsInCategory(objects: seq<Object>, category: nat)
    ensures Amount(SizeOf(Matching(objects, category)), |Matching(objects, category)|) == InCategory(objects, category)
  {
    hide SizeOf, Matching, InCategory;
    if objects == [] {
      NoneInCategory(category);
    } else {
      MatchingIsInCategory(objects[1..], category);
      FirstMatches(objects, category);
      FirstInCategory(objects, category);
    }
  }

  lemma NoneInCategory(category: nat)
    ensures Matching([], category) == [] && SizeOf([]) == 0 && InCategory([], category) == Amount(0, 0)
  {
  }

  lemma FirstInCategory(objects: seq<Object>, category: nat)
    requires objects != []
    ensures InCategory(objects, category)
         == Plus(if objects[0].cat == category then Amount(objects[0].size, 1) else Amount(0, 0), InCategory(objects[1..], category))
  {
  }

  lemma {:induction false} AbsentHasNoShareAt(ts: seq<Branch>, path: seq<string>, category: nat)
    requires category !in CategoriesAll(ts)
    ensures ShareAt(ts, path, category) == Amount(0, 0)
    decreases ts
  {
    if ts != [] {
      AbsentHasNoShareIn(ts[0], path, category);
      AbsentHasNoShareAt(ts[1..], path, category);
    }
  }

  lemma {:induction false} AbsentHasNoShareIn(t: Branch, path: seq<string>, category: nat)
    requires category !in Categories(t)
    ensures ShareIn(t, path, category) == Amount(0, 0)
    decreases t
  {
    NoneMatches(t.objects, category);
    MatchingIsInCategory(t.objects, category);
    if |path| > 1 { AbsentHasNoShareAt(t.children, path[1..], category); }
  }

  /** Filtering leaves every object of the category under the names under which it was. */
  lemma {:induction false} FilteredKeepsPlaces(t: Branch, path: seq<string>, category: nat)
    ensures var r := Filtered(t, category); (if r.Some? then AmountIn(r.value, path) else Amount(0, 0)) == ShareIn(t, path, category)
    decreases t
  {
    hide Matching, FilteredAll;
    MatchingIsInCategory(t.objects, category);
    if |path| > 1 { AllKeepPlaces(t.children, path[1..], category); }
  }

  lemma {:induction false} AllKeepPlaces(ts: seq<Branch>, path: seq<string>, category: nat)
    ensures AmountAt(FilteredAll(ts, category), path) == ShareAt(ts, path, category)
    decreases ts
  {
    hide Filtered, Categories, AmountIn, ShareIn;
    if ts != [] {
      AllKeepPlaces(ts[1..], path, category);
      FilteredKeepsPlaces(ts[0], path, category);
      FirstKeepsPlaces(ts, path, category);
    }
  }

  lemma FirstKeepsPlaces(ts: seq<Branch>, path: seq<string>, category: nat)
    requires ts != [] && AmountAt(FilteredAll(ts[1..], category), path) == ShareAt(ts[1..], path, category)
    requires var r := Filtered(ts[0], category);
             (if r.Some? then AmountIn(r.value, path) else Amount(0, 0)) == ShareIn(ts[0], path, category)
    ensures AmountAt(FilteredAll(ts, category), path) == ShareAt(ts, path, category)
  {
    hide Filtered, Categories, AmountIn, ShareIn, AmountAt, FilteredAll;
    var r, rest := Filtered(ts[0], category), FilteredAll(ts[1..], category);
    FirstFiltered(ts, category);
    if category in Categories(ts[0]) {
      if r.Some? { FirstAt(r.value, rest, path); }
    } else {
      AbsentHasNoShareIn(ts[0], path, category);
    }
  }

  lemma FirstFiltered(ts: seq<Branch>, category: nat)
    requires ts != []
    ensures var r, rest := Filtered(ts[0], category), FilteredAll(ts[1..], category);
            FilteredAll(ts, category) == if category in Categories(ts[0]) && r.Some? then [r.value] + rest else rest
  {
    hide Filtered, Categories;
  }


  lemma FirstAt(head: Branch, rest: seq<Branch>, path: seq<string>)
    ensures AmountAt([head] + rest, path) == Plus(AmountIn(head, path), AmountAt(rest, path))
  {
    hide AmountIn;
    assert ([head] + rest)[1..] == rest;
  }

  /** A tree under a new name is found under it, and changes nothing under other names. */
  lemma {:induction false} UnderKeepsPlaces(ts: seq<Branch>, name: string, t: Branch, path: seq<string>)
    requires !HasName(ts, name)
    ensures AmountAt(Under(ts, name, t), path) == Plus(AmountAt(ts, path), AmountIn(t, path))
  {
    hide AmountIn, HasName;
    if ts == [] {
      assert [t][1..] == [];
    } else {
      assert ts == [ts[0]] + ts[1..];
      Names(ts[0], ts[1..], name);
      UnderKeepsPlaces(ts[1..], name, t, path);
      assert ([ts[0]] + Under(ts[1..], name, t))[1..] == Under(ts[1..], name, t);
    }
  }

  lemma {:induction false} NothingUnder(ts: seq<Branch>, path: seq<string>)
    requires path != [] && !HasName(ts, path[0])
    ensures AmountAt(ts, path) == Amount(0, 0)
  {
    hide HasName;
    if ts != [] {
      assert ts == [ts[0]] + ts[1..];
      Names(ts[0], ts[1..], path[0]);
      NothingUnder(ts[1..], path);
    }
  }

  /** If the categories that occur have different names, every object is found below the name
      of its category, under the names under which it was below the root. */
  lemma {:induction false} SplitKeepsPlaces(t: Branch, names: nat -> string, n: nat, i: nat, path: seq<string>)
    requires NamesTellApart(t, names, n) && i < n && i in Categories(t)
    ensures AmountAt(Split(t, names, n), [names(i)] + path) == ShareIn(t, [t.name] + path, i)
    decreases n
  {
    hide Categories, Filtered, Under, AmountAt, AmountIn, ShareIn, HasName;
    hide NamesTellApart;
    var c, at, before := n - 1, [names(i)] + path, Split(t, names, n - 1);
    NewName(t, names, n);
    if c in Categories(t) {
      var part := Filtered(t, c).value.(name := names(c));
      UnderKeepsPlaces(before, names(c), part, at);
      if i == c {
        NothingUnder(before, at);
        RenamedKeepsPlaces(t, c, names(c), path);
      } else {
        OtherName(part, at);
      }
    }
    if i < c { SplitKeepsPlaces(t, names, c, i, path); }
  }

  lemma NewName(t: Branch, names: nat -> string, n: nat)
    requires NamesTellApart(t, names, n) && n > 0
    ensures NamesTellApart(t, names, n - 1) && (Filtered(t, n - 1).Some? <==> n - 1 in Categories(t))
    ensures n - 1 in Categories(t) ==> !HasName(Split(t, names, n - 1), names(n - 1))
    ensures n - 1 in Categories(t) ==> forall i :: 0 <= i < n - 1 && i in Categories(t) ==> names(i) != names(n - 1)
  {
    hide Categories, Filtered, HasName, Split;
    SplitCountsShares(t, names, n - 1);
    FilteredIsPart(t, n - 1, names(n - 1));
  }

  lemma OtherName(t: Branch, path: seq<string>)
    requires path != [] && t.name != path[0]
    ensures AmountIn(t, path) == Amount(0, 0)
  {
  }

  lemma RenamedKeepsPlaces(t: Branch, category: nat, name: string, path: seq<string>)
    requires Filtered(t, category).Some?
    ensures AmountIn(Filtered(t, category).value.(name := name), [name] + path) == ShareIn(t, [t.name] + path, category)
  {
    FilteredKeepsPlaces(t, [t.name] + path, category);
    assert ([name] + path)[1..] == ([t.name] + path)[1..];
  }

  /** Two objects in two categories. */
  const TWO_KINDS: Branch := Node("root", 2, 2, [Object(1, 1), Object(1, 2)], [])

  /** If the two categories have one name, the split of these two objects counts one. */
  lemma SplitLosesOne(names: nat -> string)
    requires names(1) == names(2)
    ensures Total(TWO_KINDS) == Amount(2, 2)
    ensures TotalAll(Split(Annotated(TWO_KINDS, 0), names, CATEGORIES)) == Amount(1, 1)
  {
    hide Split, Annotated;
    TwoKindsStay();
    SplitOfTwoKinds(names, CATEGORIES);
    var lone := Node(names(1), 1, 1, [], []);
    assert [lone][1..] == [] && Total(lone) == Amount(1, 1);
  }

  lemma TwoKindsStay()
    ensures Annotated(TWO_KINDS, 0) == TWO_KINDS
  {
    var os, last := TWO_KINDS.objects, [Object(1, 2)];
    assert os[1..] == last && last[1..] == [];
    assert Recategorised(last, 0) == last && Recategorised(os, 0) == os;
  }

  lemma {:induction false} SplitOfTwoKinds(names: nat -> string, n: nat)
    requires names(1) == names(2)
    ensures Split(TWO_KINDS, names, n)
         == if n < 2 then [] else [Node(names(1), 1, 1, [], [])]
  {
    if n > 0 {
      SplitOfTwoKinds(names, n - 1);
      FilteredOfTwoKinds(n - 1);
    }
  }

  lemma FilteredOfTwoKinds(category: nat)
    ensures Filtered(TWO_KINDS, category)
         == if category == 1 || category == 2 then Some(Node("root", 1, 1, [], [])) else None
  {
    var os, last := TWO_KINDS.objects, [Object(1, 2)];
    assert os[1..] == last && last[1..] == [];
    assert Matching(last, category) == if category == 2 then last else [];
    assert SizeOf(last) == 1 && SizeOf([Object(1, 1)]) == 1;
  }

  lemma {:induction false} FilteredAllAppend(ts: seq<Branch>, c: Branch, category: nat)
    ensures var filtered := if category in Categories(c) then Filtered(c, category) else None;
            FilteredAll(ts + [c], category)
              == FilteredAll(ts, category) + (if filtered.Some? then [filtered.value] else [])
  {
    hide Filtered, Categories;
    if ts == [] {
      assert ts + [c] == [c];
    } else {
      FilteredAllAppend(ts[1..], c, category);
      assert (ts + [c])[1..] == ts[1..] + [c];
    }
  }

  lemma {:induction false} MatchingAppend(objects: seq<Object>, o: Object, category: nat)
    ensures var before, after := Matching(objects, category), Matching(objects + [o], category);
            if o.cat == category then |after| == |before| + 1 && SizeOf(after) == SizeOf(before) + o.size
            else after == before
  {
    if objects == [] {
      assert objects + [o] == [o];
    } else {
      MatchingAppend(objects[1..], o, category);
      assert (objects + [o])[1..] == objects[1..] + [o];
      FirstMatches(objects, category);
      FirstMatches(objects + [o], category);
    }
  }

  /** `filteredTreeForCategory`, child by child and object by object. */
  method FilterTree(t: Branch, category: nat) returns (r: Option<Branch>)
    ensures r == Filtered(t, category)
    decreases t
  {
    var children := [];
    for i := 0 to |t.children|
      invariant children == FilteredAll(t.children[..i], category)
    {
      var c := t.children[i];
      assert t.children[..i + 1] == t.children[..i] + [c];
      FilteredAllAppend(t.children[..i], c, category);
      if category in Categories(c) {
        var filtered := FilterTree(c, category);
        if filtered.Some? { children := children + [filtered.value]; }
      }
    }
    assert t.children[..|t.children|] == t.children;
    var count: nat, size: nat := 0, 0;
    for i := 0 to |t.objects|
      invariant count == |Matching(t.objects[..i], category)| && size == SizeOf(Matching(t.objects[..i], category))
    {
      var o := t.objects[i];
      assert t.objects[..i + 1] == t.objects[..i] + [o];
      MatchingAppend(t.objects[..i], o, category);
      if o.cat == category { count, size := count + 1, size + o.size; }
    }
    assert t.objects[..|t.objects|] == t.objects;
    if children != [] || count != 0 {
      r := Some(Node(t.name, count, size, [], children));
    } else {
      r := None;
    }
  }

  /** `splitIntoCategories`: what the new root's children add up to. */
  method SplitTree(t: Branch, start: nat, names: nat -> string) returns (children: seq<Branch>)
    requires Counted(t) && CategoriesBelow(t, 256)
    ensures children == Split(Annotated(t, start), names, 256)
    ensures TotalAll(children) == Total(t) <==> NamesTellApart(Annotated(t, start), names, 256)
    ensures TotalAll(children).count <= Total(t).count
  {
    var annotated := Annotated(t, start);
    children := [];
    for i := 0 to CATEGORIES
      invariant children == Split(annotated, names, i)
    {
      var filtered := FilterTree(annotated, i);
      if filtered.Some? {
        children := Under(children, names(i), filtered.value.(name := names(i)));
      }
    }
    SplitConserves(t, start, names);
  }
}
