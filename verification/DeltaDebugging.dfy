/** Delta debugging of feature flags (tools/flag-bisect.py): shrink a list of flags
    to one that still shows the behaviour of interest and from which no single flag
    can be dropped. The program under test is a fixed predicate on flag lists. */
module DeltaDebugging {

  import opened Basics

  type Flag = string
  type Hot = seq<Flag> -> bool

  /** `part` keeps some of the flags, in their order. */
  ghost predicate Sublist(part: seq<Flag>, flags: seq<Flag>) {
    if part == [] then true
    else flags != [] && ((part[0] == flags[0] && Sublist(part[1..], flags[1..])) || Sublist(part, flags[1..]))
  }

  lemma {:induction false} SublistReflexive(flags: seq<Flag>)
    ensures Sublist(flags, flags)
  {
    if flags != [] { SublistReflexive(flags[1..]); }
  }

  lemma {:induction false} SublistTransitive(a: seq<Flag>, b: seq<Flag>, c: seq<Flag>)
    requires Sublist(a, b) && Sublist(b, c)
    ensures Sublist(a, c)
    decreases |b| + |c|
  {
    if a == [] || b == [] {
    } else if b[0] == c[0] && Sublist(b[1..], c[1..]) {
      if a[0] == b[0] && Sublist(a[1..], b[1..]) {
        SublistTransitive(a[1..], b[1..], c[1..]);
      } else {
        SublistTransitive(a, b[1..], c[1..]);
      }
    } else {
      SublistTransitive(a, b, c[1..]);
    }
  }

  lemma {:induction false} SublistMembers(a: seq<Flag>, b: seq<Flag>, f: Flag)
    requires Sublist(a, b) && f in a
    ensures f in b
    decreases |b|
  {
    if a[0] == b[0] && Sublist(a[1..], b[1..]) {
      if f != a[0] { SublistMembers(a[1..], b[1..], f); }
    } else {
      SublistMembers(a, b[1..], f);
    }
  }

  lemma {:induction false} SublistDistinct(a: seq<Flag>, b: seq<Flag>)
    requires Sublist(a, b) && NoDuplicates(b)
    ensures NoDuplicates(a)
    decreases |b|
  {
    if a != [] {
      if a[0] == b[0] && Sublist(a[1..], b[1..]) {
        SublistDistinct(a[1..], b[1..]);
        forall i, j | 0 <= i < j < |a| ensures a[i] != a[j] {
          assert a[j] == a[1..][j - 1];
          if i == 0 { SublistMembers(a[1..], b[1..], a[j]); } else { assert a[i] == a[1..][i - 1]; }
        }
      } else {
        SublistDistinct(a, b[1..]);
      }
    }
  }

  /** Flags with the slice `[lo..hi]` taken out. */
  function Without(flags: seq<Flag>, lo: nat, hi: nat): seq<Flag>
    requires lo <= hi <= |flags|
  {
    flags[..lo] + flags[hi..]
  }

  lemma {:induction false} SliceIsSublist(flags: seq<Flag>, lo: nat, hi: nat)
    requires lo <= hi <= |flags|
    ensures Sublist(flags[lo..hi], flags)
    decreases |flags|
  {
    if flags == [] || lo == hi {
    } else if lo > 0 {
      assert flags[lo..hi] == flags[1..][lo - 1..hi - 1];
      SliceIsSublist(flags[1..], lo - 1, hi - 1);
    } else {
      assert flags[lo..hi][1..] == flags[1..][0..hi - 1];
      SliceIsSublist(flags[1..], 0, hi - 1);
    }
  }

  lemma {:induction false} WithoutIsSublist(flags: seq<Flag>, lo: nat, hi: nat)
    requires lo <= hi <= |flags|
    ensures Sublist(Without(flags, lo, hi), flags)
    decreases |flags|
  {
    if hi == 0 {
      assert Without(flags, lo, hi) == flags;
      SublistReflexive(flags);
    } else if lo > 0 {
      assert Without(flags, lo, hi)[1..] == Without(flags[1..], lo - 1, hi - 1);
      WithoutIsSublist(flags[1..], lo - 1, hi - 1);
    } else {
      assert Without(flags, lo, hi) == Without(flags[1..], 0, hi - 1);
      WithoutIsSublist(flags[1..], 0, hi - 1);
    }
  }

  /** `[flag for flag in flags if flag not in slice]`. */
  function Complement(flags: seq<Flag>, slice: seq<Flag>): seq<Flag> {
    if flags == [] then []
    else (if flags[0] in slice then [] else [flags[0]]) + Complement(flags[1..], slice)
  }

  lemma {:induction false} ComplementAll(flags: seq<Flag>, slice: seq<Flag>)
    ensures (forall f :: f in flags ==> f in slice) ==> Complement(flags, slice) == []
    ensures (forall f :: f in flags ==> f !in slice) ==> Complement(flags, slice) == flags
  {
    if flags != [] { ComplementAll(flags[1..], slice); }
  }

  lemma {:induction false} ComplementAppend(a: seq<Flag>, b: seq<Flag>, slice: seq<Flag>)
    ensures Complement(a + b, slice) == Complement(a, slice) + Complement(b, slice)
  {
    if a == [] {
      assert a + b == b;
    } else {
      assert (a + b)[1..] == a[1..] + b;
      ComplementAppend(a[1..], b, slice);
    }
  }

  lemma ComplementOfMiddle(a: seq<Flag>, slice: seq<Flag>, b: seq<Flag>)
    requires forall f :: f in a || f in b ==> f !in slice
    ensures Complement(a + slice + b, slice) == a + b
  {
    ComplementAppend(a + slice, b, slice);
    ComplementAppend(a, slice, slice);
    ComplementAll(a, slice);
    ComplementAll(slice, slice);
    ComplementAll(b, slice);
  }

  /** For distinct flags, filtering out a slice's flags takes out just the slice. */
  lemma ComplementOfSlice(flags: seq<Flag>, lo: nat, hi: nat)
    requires lo <= hi <= |flags| && NoDuplicates(flags)
    ensures Complement(flags, flags[lo..hi]) == Without(flags, lo, hi)
  {
    var a, slice, b := flags[..lo], flags[lo..hi], flags[hi..];
    assert flags == a + slice + b;
    forall f | f in a || f in b ensures f !in slice {
      assert forall i, j :: lo <= i < hi && (0 <= j < lo || hi <= j < |flags|) ==> flags[i] != flags[j];
    }
    ComplementOfMiddle(a, slice, b);
  }

  /** Consecutive nonempty slices, of `per` flags each except perhaps the last, that
      together are all of the flags; `cuts` are their boundaries. */
  ghost predicate Partition(flags: seq<Flag>, per: nat, slices: seq<seq<Flag>>, cuts: seq<nat>) {
    && |cuts| == |slices| + 1 && cuts[0] == 0 && cuts[|slices|] == |flags|
    && forall k :: 0 <= k < |slices| ==> SliceBetween(flags, per, slices[k], cuts[k], cuts[k + 1], k)
  }

  ghost predicate SliceBetween(flags: seq<Flag>, per: nat, slice: seq<Flag>, lo: nat, hi: nat, k: nat) {
    && lo < hi <= |flags| && slice == flags[lo..hi]
    && (hi - lo == per || (hi - lo < per && hi == |flags|))
    && (per == 1 ==> lo == k)
  }

  function Joined(slices: seq<seq<Flag>>): seq<Flag> {
    if slices == [] then [] else Joined(slices[..|slices| - 1]) + slices[|slices| - 1]
  }

  /** The first `k` slices together are the flags up to their end. */
  lemma {:induction false} PartitionJoins(flags: seq<Flag>, per: nat, slices: seq<seq<Flag>>, cuts: seq<nat>, k: nat)
    requires Partition(flags, per, slices, cuts) && k <= |slices|
    ensures cuts[k] <= |flags| && Joined(slices[..k]) == flags[..cuts[k]]
    decreases k
  {
    if k > 0 {
      PartitionJoins(flags, per, slices, cuts, k - 1);
      assert SliceBetween(flags, per, slices[k - 1], cuts[k - 1], cuts[k - 1 + 1], k - 1);
      assert slices[..k][..k - 1] == slices[..k - 1];
    }
  }

  lemma PartitionIsWhole(flags: seq<Flag>, per: nat, slices: seq<seq<Flag>>, cuts: seq<nat>)
    requires Partition(flags, per, slices, cuts)
    ensures Joined(slices) == flags && forall k :: 0 <= k < |slices| ==> 1 <= |slices[k]| <= per
  {
    PartitionJoins(flags, per, slices, cuts, |slices|);
    assert slices[..|slices|] == slices && flags[..|flags|] == flags;
    forall k | 0 <= k < |slices| ensures 1 <= |slices[k]| <= per {
      assert SliceBetween(flags, per, slices[k], cuts[k], cuts[k + 1], k);
    }
  }

  /** The generator's loop. The guard on `granularity` is what makes it advance. */
  method PairwiseDisjoints(flags: seq<Flag>, granularity: nat) returns (slices: seq<seq<Flag>>, ghost cuts: seq<nat>)
    requires 1 <= granularity <= |flags|
    ensures Partition(flags, |flags| / granularity, slices, cuts)
    ensures Joined(slices) == flags && forall k :: 0 <= k < |slices| ==> 1 <= |slices[k]| <= |flags| / granularity
  {
    slices, cuts := [], [0];
    var offset := 0;
    var perSliceLen := |flags| / granularity;
    while offset < |flags|
      invariant 0 <= offset && |cuts| == |slices| + 1 && cuts[0] == 0
      invariant cuts[|slices|] == if offset <= |flags| then offset else |flags|
      invariant perSliceLen == 1 ==> offset == |slices|
      invariant forall k :: 0 <= k < |slices| ==> SliceBetween(flags, perSliceLen, slices[k], cuts[k], cuts[k + 1], k)
      decreases |flags| - offset
    {
      var end := if offset + perSliceLen <= |flags| then offset + perSliceLen else |flags|;
      slices := slices + [flags[offset..end]];
      cuts := cuts + [end];
      offset := offset + perSliceLen;
    }
    assert Partition(flags, perSliceLen, slices, cuts);
    hide SliceBetween;
    PartitionIsWhole(flags, perSliceLen, slices, cuts);
  }

  /** No flag can be dropped: every list with one flag less is not hot. */
  ghost predicate OneMinimal(flags: seq<Flag>, hot: Hot) {
    forall k :: 0 <= k < |flags| ==> !hot(DropOne(flags, k))
  }

  function DropOne(flags: seq<Flag>, k: nat): seq<Flag>
    requires k < |flags|
  {
    Without(flags, k, k + 1)
  }

  /** What holds of the current list and granularity at the head of every round. */
  ghost predicate Round(current: seq<Flag>, granularity: nat, initial: seq<Flag>, hot: Hot) {
    && Sublist(current, initial) && NoDuplicates(current)
    && (current == initial || hot(current))
    && granularity >= 2 && (|current| >= 2 ==> granularity <= |current|)
  }

  /** Taking either half of a cut leads to a fitting next round with fewer flags. */
  lemma NextRound(current: seq<Flag>, granularity: nat, initial: seq<Flag>, hot: Hot,
                  slices: seq<seq<Flag>>, cuts: seq<nat>, k: nat)
    requires Round(current, granularity, initial, hot) && |current| >= 2
    requires Partition(current, |current| / granularity, slices, cuts) && k < |slices|
    ensures Complement(current, slices[k]) == Without(current, cuts[k], cuts[k + 1])
    ensures |slices[k]| < |current| && |Complement(current, slices[k])| < |current|
    ensures hot(slices[k]) ==> Round(slices[k], 2, initial, hot)
    ensures hot(Complement(current, slices[k])) ==>
              Round(Complement(current, slices[k]), Coarser(granularity), initial, hot)
  {
    var lo, hi := cuts[k], cuts[k + 1];
    var rest := Without(current, lo, hi);
    assert SliceBetween(current, |current| / granularity, slices[k], lo, hi, k);
    ComplementOfSlice(current, lo, hi);
    SliceIsSublist(current, lo, hi);
    WithoutIsSublist(current, lo, hi);
    SublistTransitive(slices[k], current, initial);
    SublistTransitive(rest, current, initial);
    SublistDistinct(slices[k], current);
    SublistDistinct(rest, current);
    QuotientLeaves(|current|, granularity);
  }

  lemma ProductAtLeast(q: nat, k: nat)
    requires q >= 1
    ensures q * k >= k
  {
  }

  /** Taking one of `g` parts away leaves at least `g - 1` elements. */
  lemma QuotientLeaves(n: nat, g: nat)
    requires 2 <= g <= n
    ensures 1 <= n / g < n && n - n / g >= g - 1
  {
    QuotientParts(n, g, n / g, n % g);
  }

  lemma QuotientParts(n: nat, g: nat, q: nat, r: nat)
    requires 2 <= g <= n && n == q * g + r && r < g
    ensures 1 <= q < n && n - q >= g - 1
  {
    if q == 0 { assert false; }
    var k := g - 1;
    assert q * g == q * k + q;
    ProductAtLeast(q, k);
  }

  /** No slice's complement is hot. */
  ghost predicate ComplementsCold(flags: seq<Flag>, hot: Hot, slices: seq<seq<Flag>>) {
    forall k :: 0 <= k < |slices| ==> !hot(Complement(flags, slices[k]))
  }

  /** At the finest granularity the complements are the lists with one flag less. */
  lemma SinglesAreMinimal(flags: seq<Flag>, hot: Hot, slices: seq<seq<Flag>>, cuts: seq<nat>)
    requires |flags| > 0 && NoDuplicates(flags) && Partition(flags, |flags| / |flags|, slices, cuts)
    requires ComplementsCold(flags, hot, slices)
    ensures OneMinimal(flags, hot)
  {
    assert |flags| / |flags| == 1;
    var n := |slices|;
    assert SliceBetween(flags, 1, slices[n - 1], cuts[n - 1], cuts[n], n - 1);
    forall k | 0 <= k < |flags| ensures !hot(DropOne(flags, k)) {
      assert SliceBetween(flags, 1, slices[k], cuts[k], cuts[k + 1], k);
      ComplementOfSlice(flags, k, k + 1);
    }
  }

  function Coarser(granularity: nat): nat
    requires granularity >= 2
  {
    if granularity - 1 > 2 then granularity - 1 else 2
  }

  /** The round goes on with the complement of the `k`-th slice, one slice fewer but at least
      two, or with the slice itself and two. */
  ghost predicate Taken(flags: seq<Flag>, granularity: nat, slices: seq<seq<Flag>>, k: nat, current: seq<Flag>, newGranularity: nat)
  {
    && k < |slices|
    && ((current == Complement(flags, slices[k]) && newGranularity == if granularity == 2 then 2 else granularity - 1)
        || (current == slices[k] && newGranularity == 2))
  }

  /** No earlier slice is hot, and no complement of one. */
  ghost predicate First(flags: seq<Flag>, hot: Hot, slices: seq<seq<Flag>>, k: nat, current: seq<Flag>) {
    && k < |slices| && hot(current) && (forall j :: 0 <= j < k ==> !hot(slices[j]) && !hot(Complement(flags, slices[j])))
    && (hot(Complement(flags, slices[k])) ==> current == Complement(flags, slices[k]))
  }

  /** One round of the serial search: the slices in order, each complement before its slice. */
  method SerialRound(flags: seq<Flag>, granularity: nat, hot: Hot, ghost initial: seq<Flag>)
    returns (changed: bool, current: seq<Flag>, newGranularity: nat, ghost slices: seq<seq<Flag>>, ghost cuts: seq<nat>)
    requires |flags| >= 2 && Round(flags, granularity, initial, hot)
    ensures changed ==> |current| < |flags| && Round(current, newGranularity, initial, hot)
    ensures !changed ==> current == flags && newGranularity == granularity
    ensures changed ==> exists k :: Taken(flags, granularity, slices, k, current, newGranularity) && First(flags, hot, slices, k, current)
    ensures !changed ==> Partition(flags, |flags| / granularity, slices, cuts) && ComplementsCold(flags, hot, slices)
  {
    changed, current, newGranularity := false, flags, granularity;
    var parts, bounds := PairwiseDisjoints(flags, granularity);
    slices, cuts := parts, bounds;
    for k := 0 to |parts|
      invariant !changed && current == flags && newGranularity == granularity
      invariant ComplementsCold(flags, hot, parts[..k])
      invariant forall j :: 0 <= j < k ==> !hot(parts[j]) && !hot(Complement(flags, parts[j]))
    {
      NextRound(flags, granularity, initial, hot, parts, cuts, k);
      var subset, complement := parts[k], Complement(flags, parts[k]);
      assert Taken(flags, granularity, parts, k, complement, Coarser(granularity)) && Taken(flags, granularity, parts, k, subset, 2);
      if hot(complement) {
        assert First(flags, hot, parts, k, complement);
        return true, complement, Coarser(granularity), slices, cuts;
      } else if hot(subset) {
        assert First(flags, hot, parts, k, subset);
        return true, subset, 2, slices, cuts;
      }
    }
    assert parts[..|parts|] == parts;
  }

  /** The serial search. The result is hot if the input was, keeps the input's order,
      and when two or more flags are left, none of them can be dropped. */
  method Ddmin(initial: seq<Flag>, hot: Hot) returns (current: seq<Flag>)
    requires NoDuplicates(initial)
    ensures Sublist(current, initial)
    ensures current == initial || hot(current)
    ensures |current| >= 2 ==> OneMinimal(current, hot)
  {
    current := initial;
    var granularity: nat := 2;
    SublistReflexive(initial);
    while |current| >= 2
      invariant Round(current, granularity, initial, hot)
      decreases |current|, |current| - granularity
    {
      var changed;
      ghost var slices, cuts;
      changed, current, granularity, slices, cuts := SerialRound(current, granularity, hot, initial);
      if !changed {
        if granularity == |current| {
          SinglesAreMinimal(current, hot, slices, cuts);
          break;
        }
        granularity := if granularity * 2 < |current| then granularity * 2 else |current|;
      }
    }
  }

  /** One test run of a round: of a slice or of its complement. */
  datatype Job = SubsetJob(slice: nat) | ComplementJob(slice: nat)

  /** One round of the concurrent search: the jobs complete in an arbitrary order. The
      first hot one decides the round, and completions after it change nothing. */
  method ParallelRound(flags: seq<Flag>, granularity: nat, hot: Hot, ghost initial: seq<Flag>)
    returns (changed: bool, current: seq<Flag>, newGranularity: nat, ghost slices: seq<seq<Flag>>, ghost cuts: seq<nat>)
    requires |flags| >= 2 && Round(flags, granularity, initial, hot)
    ensures changed ==> |current| < |flags| && Round(current, newGranularity, initial, hot)
    ensures !changed ==> current == flags && newGranularity == granularity
    ensures changed ==> hot(current) && exists k :: Taken(flags, granularity, slices, k, current, newGranularity)
    ensures !changed ==> Partition(flags, |flags| / granularity, slices, cuts) && ComplementsCold(flags, hot, slices)
  {
    changed, current, newGranularity := false, flags, granularity;
    var parts, bounds := PairwiseDisjoints(flags, granularity);
    slices, cuts := parts, bounds;
    var outstanding := (set k | 0 <= k < |parts| :: SubsetJob(k)) + (set k | 0 <= k < |parts| :: ComplementJob(k));
    while outstanding != {}
      invariant forall j :: j in outstanding ==> j.slice < |parts|
      invariant changed ==> |current| < |flags| && Round(current, newGranularity, initial, hot)
      invariant changed ==> hot(current) && exists k :: Taken(flags, granularity, slices, k, current, newGranularity)
      invariant !changed ==> current == flags && newGranularity == granularity
      invariant !changed ==> forall k :: 0 <= k < |parts| && ComplementJob(k) !in outstanding ==> !hot(Complement(flags, parts[k]))
      decreases outstanding
    {
      var job :| job in outstanding;
      outstanding := outstanding - {job};
      NextRound(flags, granularity, initial, hot, parts, cuts, job.slice);
      var delta := if job.SubsetJob? then parts[job.slice] else Complement(flags, parts[job.slice]);
      if hot(delta) && !changed {
        changed, current := true, delta;
        newGranularity := if job.SubsetJob? then 2 else Coarser(granularity);
        assert Taken(flags, granularity, slices, job.slice, current, newGranularity);
      }
    }
  }

  /** The concurrent search keeps every promise of the serial one. */
  method DdminParallel(initial: seq<Flag>, hot: Hot) returns (current: seq<Flag>)
    requires NoDuplicates(initial)
    ensures Sublist(current, initial)
    ensures current == initial || hot(current)
    ensures |current| >= 2 ==> OneMinimal(current, hot)
  {
    current := initial;
    var granularity: nat := 2;
    SublistReflexive(initial);
    while |current| >= 2
      invariant Round(current, granularity, initial, hot)
      decreases |current|, |current| - granularity
    {
      var changed;
      ghost var slices, cuts;
      changed, current, granularity, slices, cuts := ParallelRound(current, granularity, hot, initial);
      if !changed {
        if granularity == |current| {
          SinglesAreMinimal(current, hot, slices, cuts);
          break;
        }
        granularity := if granularity * 2 < |current| then granularity * 2 else |current|;
      }
    }
  }
}
