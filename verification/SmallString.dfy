/** The string of doctest (extern/doctest.h, `String`): short texts stand in the object itself,
    longer ones in a block of their own. */
module SmallString {

  type Byte = x: int | 0 <= x < 256

  const LEN: nat := 24
  const LAST: nat := 23

  /** `memcpy` between distinct blocks. */
  method CopyBytes(target: array<Byte>, at: nat, source: array<Byte>, n: nat)
    requires target != source && at + n <= target.Length && n <= source.Length
    modifies target
    ensures forall k :: 0 <= k < target.Length ==> target[k] == if at <= k < at + n then source[k - at] else old(target[k])
  {
    for i := 0 to n
      invariant forall k :: 0 <= k < target.Length ==> target[k] == if at <= k < at + i then source[k - at] else old(target[k])
    {
      target[at + i] := source[i];
    }
  }

  /** The free store: which blocks have been handed out by `new` and not yet deleted. */
  class Store {
    ghost var live: set<object>

    constructor ()
      ensures live == {}
    {
      live := {};
    }

    method New(n: nat) returns (block: array<Byte>)
      modifies this
      ensures fresh(block) && block.Length == n && live == old(live) + {block}
    {
      block := new Byte[n](_ => 0);
      live := live + {block};
    }

    /** `delete[]`: only of a block that is live, and what it held is lost. */
    method Delete(block: array<Byte>)
      requires block in live
      modifies this, block
      ensures live == old(live) - {block}
    {
      live := live - {block};
      for i := 0 to block.Length
        invariant live == old(live) - {block}
      {
        block[i] := *;
      }
    }
  }

  /** Where `ptr`, `length` and `room` stand among the inline bytes. */
  const PTR_END: nat := 8
  const LENGTH_END: nat := 12
  const ROOM_END: nat := 16

  class String {
    const buf: array<Byte>
    var ptr: array<Byte>
    var length: nat
    var room: nat
    ghost var Repr: set<object>

    /** The last inline byte: what is left of the inline room, or 128 for a text elsewhere. In
        the second case the first 16 inline bytes are those of `ptr`, `length` and `room`. */
    predicate IsOnStack()
      reads this, buf
      requires buf.Length == LEN
    {
      buf[LAST] < 128
    }

    ghost predicate Valid()
      reads this, Repr
    {
      && this in Repr && buf in Repr && buf.Length == LEN
      && if IsOnStack() then
           Repr == {this, buf} && buf[LAST] <= LAST && buf[LAST - buf[LAST]] == 0
         else
           && ptr in Repr && Repr == {this, buf, ptr} && ptr != buf
           && ptr.Length == room && length < room && ptr[length] == 0
    }

    /** The block that the string has to delete, if it has one. */
    ghost function Blocks(): set<object>
      reads this, Repr
      requires Valid()
    {
      if IsOnStack() then {} else {ptr}
    }

    /** The text, as a sequence of bytes. */
    ghost function Contents(): (s: seq<Byte>)
      reads this, Repr
      requires Valid()
      ensures |s| == SizeOf()
    {
      if IsOnStack() then buf[..LAST - buf[LAST]] else ptr[..length]
    }

    /** `size` */
    function SizeOf(): nat
      reads this, Repr
      requires Valid()
    {
      if IsOnStack() then LAST - buf[LAST] % 32 else length
    }

    /** `capacity` */
    function Capacity(): nat
      reads this, Repr
      requires Valid()
    {
      if IsOnStack() then LEN else room
    }

    /** `c_str`: the block that holds the text. */
    function CStr(): (block: array<Byte>)
      reads this, Repr
      requires Valid()
      ensures block in Repr && SizeOf() < block.Length == Capacity()
      ensures block[..SizeOf()] == Contents() && block[SizeOf()] == 0
    {
      if IsOnStack() then buf else ptr
    }

    // ---- the union: a write to one member leaves any bytes in the other ----

    method LoseBytes(start: nat, end: nat)
      requires start <= end <= ROOM_END && buf.Length == LEN
      modifies buf
      ensures forall k :: 0 <= k < LEN && !(start <= k < end) ==> buf[k] == old(buf[k])
    {
      for i := start to end
        invariant forall k :: 0 <= k < LEN && !(start <= k < end) ==> buf[k] == old(buf[k])
      {
        buf[i] := *;
      }
    }

    method LoseView()
      modifies `ptr, `length, `room
    {
      ptr, length, room := *, *, *;
    }

    method SetPtr(block: array<Byte>)
      requires buf.Length == LEN
      modifies `ptr, buf
      ensures ptr == block && forall k :: PTR_END <= k < LEN ==> buf[k] == old(buf[k])
    {
      ptr := block;
      LoseBytes(0, PTR_END);
    }

    method SetLength(n: nat)
      requires buf.Length == LEN
      modifies `length, buf
      ensures length == n && forall k :: LENGTH_END <= k < LEN ==> buf[k] == old(buf[k])
    {
      length := n;
      LoseBytes(PTR_END, LENGTH_END);
    }

    method SetRoom(n: nat)
      requires buf.Length == LEN
      modifies `room, buf
      ensures room == n && forall k :: ROOM_END <= k < LEN ==> buf[k] == old(buf[k])
    {
      room := n;
      LoseBytes(LENGTH_END, ROOM_END);
    }

    method SetByte(k: nat, b: Byte)
      requires buf.Length == LEN && k < LEN
      modifies `ptr, `length, `room, buf
      ensures buf[..] == old(buf[..])[k := b]
      ensures k >= ROOM_END ==> ptr == old(ptr) && length == old(length) && room == old(room)
    {
      buf[k] := b;
      if k < ROOM_END { LoseView(); }
    }

    // ---- the operations ----

    constructor ()
      ensures Valid() && fresh(Repr) && Contents() == [] && Blocks() == {}
    {
      buf := new Byte[LEN](_ => 0);
      ptr := new Byte[0];
      length, room := 0, 0;
      new;
      MakeEmpty();
    }

    /** `allocate`: room for a text of `sz` bytes, ended by a zero. The old block is the
        caller's business. */
    method Allocate(store: Store, sz: nat) returns (block: array<Byte>)
      requires buf.Length == LEN
      modifies this, buf, store
      ensures Valid() && SizeOf() == sz && block == CStr() && fresh(Repr - {this, buf})
      ensures IsOnStack() <==> sz <= 23
      ensures store.live == old(store.live) + Blocks()
    {
      if sz <= LAST {
        SetByte(sz, 0);
        SetByte(LAST, LAST - sz);
        block := buf;
        Repr := {this, buf};
      } else {
        SetByte(LAST, 128);
        SetLength(sz);
        SetRoom(sz + 1);
        block := store.New(sz + 1);
        SetPtr(block);
        block[sz] := 0;
        Repr := {this, buf, ptr};
      }
    }

    constructor FromBytes(store: Store, text: seq<Byte>)
      modifies store
      ensures Valid() && fresh(Repr) && Contents() == text && store.live == old(store.live) + Blocks()
    {
      buf := new Byte[LEN](_ => 0);
      ptr := new Byte[0];
      length, room := 0, 0;
      Repr := {this, buf};
      new;
      var block := Allocate(store, |text|);
      WriteText(block, text);
    }

    /** Copies a text into the place just allocated for it. */
    method WriteText(block: array<Byte>, text: seq<Byte>)
      requires Valid() && block == CStr() && SizeOf() == |text|
      modifies `ptr, `length, `room, block
      ensures Valid() && Contents() == text && SizeOf() == |text| && IsOnStack() == old(IsOnStack()) && Blocks() == old(Blocks())
    {
      var onStack := IsOnStack();
      for i := 0 to |text|
        invariant unchanged(this) && Valid() && SizeOf() == |text| && IsOnStack() == onStack
        invariant block[..i] == text[..i]
      {
        block[i] := text[i];
      }
      assert Contents() == text;
      if onStack { LoseView(); }
    }

    /** `copy`: the old block is the caller's business. */
    method Copy(store: Store, other: String)
      requires buf.Length == LEN && other.Valid() && {this, buf} !! other.Repr && store !in other.Repr
      modifies this, buf, store
      ensures Valid() && fresh(Repr - {this, buf}) && Contents() == old(other.Contents())
      ensures other.Valid() && other.Contents() == old(other.Contents()) && other.Blocks() == old(other.Blocks())
      ensures store.live == old(store.live) + Blocks()
    {
      if other.IsOnStack() {
        CopyBytes(buf, 0, other.buf, LEN);
        LoseView();
        Repr := {this, buf};
        SameBytes(other);
      } else {
        ghost var text := other.Contents();
        var block := Allocate(store, other.length);
        WriteText(block, other.ptr[..other.length]);
      }
    }

    lemma SameBytes(other: String)
      requires buf.Length == LEN && other.Valid() && other.IsOnStack() && Repr == {this, buf}
      requires forall k :: 0 <= k < LEN ==> buf[k] == other.buf[k]
      ensures Valid() && Contents() == other.Contents() && Blocks() == {}
    {
      assert buf[..] == other.buf[..];
    }

    constructor CopyOf(store: Store, other: String)
      requires other.Valid() && store !in other.Repr
      modifies store
      ensures Valid() && fresh(Repr) && Contents() == other.Contents() && store.live == old(store.live) + Blocks()
    {
      buf := new Byte[LEN](_ => 0);
      ptr := new Byte[0];
      length, room := 0, 0;
      Repr := {this, buf};
      new;
      Copy(store, other);
    }

    /** `delete[] data.ptr`, of a string that has a block. */
    method Free(store: Store)
      requires Valid() && Blocks() <= store.live && store !in Repr
      modifies store, Blocks()
      ensures store.live == old(store.live) - old(Blocks())
    {
      if !IsOnStack() {
        store.Delete(ptr);
      }
    }

    /** `operator=` */
    method Assign(store: Store, other: String)
      requires Valid() && other.Valid() && (this == other || Repr !! other.Repr) && store !in Repr + other.Repr
      requires Blocks() <= store.live
      modifies this, buf, store, Blocks()
      ensures Valid() && fresh(Repr - old(Repr)) && Contents() == old(other.Contents())
      ensures other.Valid() && (this != other ==> other.Contents() == old(other.Contents()) && other.Blocks() == old(other.Blocks()))
      ensures store.live == old(store.live) - old(Blocks()) + Blocks()
      ensures this == other ==> unchanged(old(Repr)) && unchanged(store)
    {
      if this != other {
        Free(store);
        Copy(store, other);
      }
    }

    /** Takes over the bytes of the other string, and with them its block; the other is empty. */
    method Take(other: String)
      requires buf.Length == LEN && other.Valid() && {this, buf} !! other.Repr
      modifies this, buf, other, other.buf
      ensures Valid() && Contents() == old(other.Contents()) && other.Valid() && other.Contents() == []
      ensures Repr <= {this, buf} + (old(other.Repr) - {other, other.buf}) && other.Repr == {other, other.buf}
      ensures Blocks() == old(other.Blocks()) && other.Blocks() == {}
    {
      CopyBytes(buf, 0, other.buf, LEN);
      ptr, length, room := other.ptr, other.length, other.room;
      Repr := if IsOnStack() then {this, buf} else {this, buf, ptr};
      SameString(other);
      other.MakeEmpty();
    }

    lemma SameString(other: String)
      requires buf.Length == LEN && other.Valid() && {this, buf} !! other.Repr
      requires forall k :: 0 <= k < LEN ==> buf[k] == other.buf[k]
      requires ptr == other.ptr && length == other.length && room == other.room
      requires Repr == if IsOnStack() then {this, buf} else {this, buf, ptr}
      ensures Valid() && Contents() == other.Contents() && Blocks() == other.Blocks() <= other.Repr - {other, other.buf}
    {
      assert buf[..] == other.buf[..];
    }

    method MakeEmpty()
      requires buf.Length == LEN
      modifies this, buf
      ensures Valid() && Contents() == [] && Blocks() == {} && Repr == {this, buf}
    {
      SetByte(0, 0);
      SetByte(LAST, LAST);
      Repr := {this, buf};
    }

    constructor MoveOf(other: String)
      requires other.Valid()
      modifies other, other.buf
      ensures Valid() && Contents() == old(other.Contents()) && other.Valid() && other.Contents() == []
      ensures fresh(Repr - old(other.Repr)) && other.Repr <= old(other.Repr) && Repr !! other.Repr
      ensures Blocks() == old(other.Blocks()) && other.Blocks() == {}
    {
      buf := new Byte[LEN](_ => 0);
      ptr := new Byte[0];
      length, room := 0, 0;
      Repr := {this, buf};
      new;
      Take(other);
    }

    /** `operator=` of a string that may be emptied. */
    method MoveAssign(store: Store, other: String)
      requires Valid() && other.Valid() && (this == other || Repr !! other.Repr) && store !in Repr + other.Repr
      requires Blocks() <= store.live
      modifies this, buf, other, other.buf, store, Blocks()
      ensures Valid() && Contents() == old(other.Contents()) && Repr <= old(Repr + other.Repr)
      ensures this != other ==> other.Valid() && other.Contents() == [] && other.Repr <= old(other.Repr) && Repr !! other.Repr
      ensures this != other ==> Blocks() == old(other.Blocks()) && other.Blocks() == {} && store.live == old(store.live) - old(Blocks())
      ensures this == other ==> unchanged(old(Repr)) && unchanged(store)
    {
      if this != other {
        Free(store);
        Take(other);
      }
    }

    /** The result still fits inline. */
    method AppendInline(source: array<Byte>, n: nat)
      requires Valid() && IsOnStack() && SizeOf() + n < LEN
      requires source !in Repr && n < source.Length && source[n] == 0
      modifies this, buf
      ensures Valid() && Repr == old(Repr) && Contents() == old(Contents()) + old(source[..n])
      ensures IsOnStack()
    {
      ghost var mine := Contents();
      var mySize, total := SizeOf(), SizeOf() + n;
      CopyBytes(buf, mySize, source, n + 1);
      LoseView();
      buf[LAST] := LAST - total;
      Joined(buf[..total], mine, source[..n]);
    }

    /** The inline text moves to a block, before anything is written over it. */
    method AppendOutgrowing(store: Store, source: array<Byte>, n: nat)
      requires Valid() && IsOnStack() && SizeOf() + n >= LEN && store !in Repr
      requires source !in Repr && n < source.Length && source[n] == 0
      modifies this, buf, store
      ensures Valid() && fresh(Repr - old(Repr)) && Contents() == old(Contents()) + old(source[..n])
      ensures !IsOnStack() && Capacity() == SizeOf() + 1 && store.live == old(store.live) + Blocks()
    {
      ghost var mine := Contents();
      var mySize, total := SizeOf(), SizeOf() + n;
      var temp := store.New(total + 1);
      CopyBytes(temp, 0, buf, mySize);
      assert temp[..mySize] == mine;
      SetByte(LAST, 128);
      SetLength(total);
      SetRoom(total + 1);
      SetPtr(temp);
      Repr := {this, buf, ptr};
      JoinIn(source, n, mine);
    }

    /** The other text behind this one, in a block that has room for both. */
    method JoinIn(source: array<Byte>, n: nat, ghost mine: seq<Byte>)
      requires this in Repr && buf in Repr && Repr == {this, buf, ptr} && buf.Length == LEN && !IsOnStack() && ptr != buf
      requires ptr.Length == room && length < room && length == |mine| + n && ptr[..|mine|] == mine
      requires source !in Repr && n < source.Length && source[n] == 0
      modifies ptr
      ensures Valid() && Contents() == mine + source[..n] && SizeOf() == |mine| + n && Blocks() == {ptr}
    {
      var mySize := length - n;
      CopyBytes(ptr, mySize, source, n + 1);
      Joined(ptr[..length], mine, source[..n]);
    }

    /** The block is large enough. */
    method AppendInBlock(source: array<Byte>, n: nat)
      requires Valid() && !IsOnStack() && SizeOf() + n < Capacity()
      requires source !in Repr && n < source.Length && source[n] == 0
      modifies this, buf, ptr
      ensures Valid() && Repr == old(Repr) && Contents() == old(Contents()) + old(source[..n])
      ensures !IsOnStack() && Capacity() == old(Capacity()) && Blocks() == old(Blocks())
    {
      ghost var mine := Contents();
      SetLength(length + n);
      assert ptr[..|mine|] == mine;
      JoinIn(source, n, mine);
    }

    /** The block doubles, or grows to what is needed if that is more. */
    method AppendGrowing(store: Store, source: array<Byte>, n: nat)
      requires Valid() && !IsOnStack() && SizeOf() + n >= Capacity() && store !in Repr && Blocks() <= store.live
      requires source !in Repr && n < source.Length && source[n] == 0
      modifies this, buf, store, Blocks()
      ensures Valid() && fresh(Repr - old(Repr)) && Contents() == old(Contents()) + old(source[..n])
      ensures !IsOnStack() && Capacity() == Larger(2 * old(Capacity()), SizeOf() + 1)
      ensures store.live == old(store.live) - old(Blocks()) + Blocks()
    {
      ghost var mine := Contents();
      var mySize, total := SizeOf(), SizeOf() + n;
      SetRoom(room * 2);
      if room <= total {
        SetRoom(total + 1);
      }
      var temp := store.New(room);
      CopyBytes(temp, 0, ptr, mySize);
      assert temp[..mySize] == mine;
      store.Delete(ptr);
      SetLength(total);
      SetPtr(temp);
      Repr := {this, buf, ptr};
      JoinIn(source, n, mine);
    }

    /** `operator+=`: short results stay inline, a block that is large enough is kept, and a
        block that is not is replaced by one at least twice as large. */
    method Append(store: Store, other: String)
      requires Valid() && other.Valid() && Repr !! other.Repr && store !in Repr + other.Repr && Blocks() <= store.live
      modifies Repr, store
      ensures Valid() && fresh(Repr - old(Repr)) && Contents() == old(Contents()) + old(other.Contents())
      ensures other.Valid() && other.Contents() == old(other.Contents()) && other.Blocks() == old(other.Blocks())
      ensures IsOnStack() <==> old(IsOnStack()) && SizeOf() < LEN
      ensures old(IsOnStack()) && !IsOnStack() ==> Capacity() == SizeOf() + 1
      ensures !old(IsOnStack()) && SizeOf() < old(Capacity()) ==> Capacity() == old(Capacity())
      ensures !old(IsOnStack()) && SizeOf() >= old(Capacity()) ==> Capacity() == Larger(2 * old(Capacity()), SizeOf() + 1)
      ensures store.live == old(store.live) - old(Blocks()) + Blocks()
    {
      var n, source := other.SizeOf(), other.CStr();
      var total := SizeOf() + n;
      if IsOnStack() {
        if total < LEN {
          AppendInline(source, n);
        } else {
          AppendOutgrowing(store, source, n);
        }
      } else {
        if room > total {
          AppendInBlock(source, n);
        } else {
          AppendGrowing(store, source, n);
        }
      }
    }
  }

  function Larger(a: nat, b: nat): nat {
    if a > b then a else b
  }

  lemma Joined(all: seq<Byte>, front: seq<Byte>, back: seq<Byte>)
    requires |all| == |front| + |back| && all[..|front|] == front && all[|front|..] == back
    ensures all == front + back
  {
  }

  // ---- whole runs ----

  /** What a program may do with its strings. */
  datatype Op =
    | Make(text: seq<Byte>)
    | CopyOf(j: nat)
    | MoveOf(j: nat)
    | Assign(i: nat, j: nat)
    | MoveAssign(i: nat, j: nat)
    | Append(i: nat, j: nat)
    | Destroy(i: nat)

  /** The strings exist, and nothing is appended to itself. */
  predicate Possible(n: nat, op: Op) {
    match op
    case Make(_) => true
    case CopyOf(j) => j < n
    case MoveOf(j) => j < n
    case Assign(i, j) => i < n && j < n
    case MoveAssign(i, j) => i < n && j < n
    case Append(i, j) => i < n && j < n && i != j
    case Destroy(i) => i < n
  }

  /** What the operation means for plain byte sequences. */
  function Meaning(texts: seq<seq<Byte>>, op: Op): seq<seq<Byte>> {
    if !Possible(|texts|, op) then texts
    else match op
    case Make(text) => texts + [text]
    case CopyOf(j) => texts + [texts[j]]
    case MoveOf(j) => texts[j := []] + [texts[j]]
    case Assign(i, j) => texts[i := texts[j]]
    case MoveAssign(i, j) => if i == j then texts else texts[i := texts[j]][j := []]
    case Append(i, j) => texts[i := texts[i] + texts[j]]
    case Destroy(i) => texts[..i] + texts[i + 1..]
  }

  function Meanings(ops: seq<Op>): seq<seq<Byte>> {
    if ops == [] then [] else Meaning(Meanings(ops[..|ops| - 1]), ops[|ops| - 1])
  }

  ghost predicate Holds(s: String, text: seq<Byte>)
    reads s, s.Repr
  {
    s.Valid() && s.Contents() == text
  }

  ghost predicate Apart(a: String, b: String)
    reads a, b
  {
    a.Repr !! b.Repr
  }

  ghost function Footprint(strings: seq<String>): set<object>
    reads strings
  {
    set i, o | 0 <= i < |strings| && o in strings[i].Repr :: o
  }

  /** Every string has its text, and no two share memory. */
  ghost predicate Pool(strings: seq<String>, texts: seq<seq<Byte>>)
    reads strings, Footprint(strings)
  {
    && |strings| == |texts|
    && (forall i :: 0 <= i < |strings| ==> Holds(strings[i], texts[i]))
    && forall i, j :: 0 <= i < |strings| && 0 <= j < |strings| && i != j ==> Apart(strings[i], strings[j])
  }

  ghost function BlocksOf(s: String): set<object>
    reads s, s.Repr
  {
    if s.Valid() then s.Blocks() else {}
  }

  ghost function BlockSets(strings: seq<String>): (r: seq<set<object>>)
    reads strings, Footprint(strings)
    ensures |r| == |strings| && forall k :: 0 <= k < |r| ==> r[k] == BlocksOf(strings[k])
  {
    seq(|strings|, k requires 0 <= k < |strings| reads strings, Footprint(strings) =>
      assert strings[k].Repr <= Footprint(strings); BlocksOf(strings[k]))
  }

  ghost function Union(sets: seq<set<object>>): set<object> {
    set k, o | 0 <= k < |sets| && o in sets[k] :: o
  }

  /** The live blocks are just those that the strings have to delete. */
  ghost predicate Accounted(store: Store, strings: seq<String>)
    reads store, strings, Footprint(strings)
  {
    store !in Footprint(strings) && store.live == Union(BlockSets(strings))
  }

  method Create(store: Store, strings: seq<String>, ghost texts: seq<seq<Byte>>, op: Op) returns (s: String)
    requires Pool(strings, texts) && Possible(|texts|, op) && (op.Make? || op.CopyOf?) && store !in Footprint(strings)
    modifies store
    ensures fresh(s.Repr) && s.Valid() && Meaning(texts, op) == texts + [s.Contents()]
    ensures Pool(strings, texts) && s.Repr !! Footprint(strings) && Footprint(strings) == old(Footprint(strings))
    ensures store.live == old(store.live) + BlocksOf(s) && BlockSets(strings) == old(BlockSets(strings))
  {
    hide String.Valid, String.Contents, String.SizeOf, String.IsOnStack, String.Capacity, String.Blocks;
    if op.Make? {
      s := new String.FromBytes(store, op.text);
    } else {
      assert Holds(strings[op.j], texts[op.j]);
      InFootprint(strings, op.j);
      s := new String.CopyOf(store, strings[op.j]);
    }
    SameBlockSets(old(BlockSets(strings)), strings);
  }

  lemma SameBlockSets(sets: seq<set<object>>, strings: seq<String>)
    requires |sets| == |strings| && forall k :: 0 <= k < |strings| ==> sets[k] == BlocksOf(strings[k])
    ensures BlockSets(strings) == sets
  {
  }

  lemma OneMoreString(strings: seq<String>, texts: seq<seq<Byte>>, s: String, text: seq<Byte>)
    requires Pool(strings, texts) && Holds(s, text) && s.Repr !! Footprint(strings)
    ensures Pool(strings + [s], texts + [text])
  {
    var all := strings + [s];
    forall i, j | 0 <= i < |all| && 0 <= j < |all| && i != j ensures Apart(all[i], all[j]) {
      if i < |strings| && j < |strings| {
        assert Apart(strings[i], strings[j]);
      } else {
        var k := if i < |strings| then i else j;
        assert strings[k].Repr <= Footprint(strings);
      }
    }
    forall i | 0 <= i < |all| ensures Holds(all[i], (texts + [text])[i]) {
      if i < |strings| { assert Holds(strings[i], texts[i]); }
    }
  }

  ghost function Reprs(strings: seq<String>): (r: seq<set<object>>)
    reads strings
    ensures |r| == |strings| && forall k :: 0 <= k < |r| ==> r[k] == strings[k].Repr
  {
    seq(|strings|, k requires 0 <= k < |strings| reads strings => strings[k].Repr)
  }

  /** A change of the `i`-th and `j`-th strings leaves all others alone; what the two use now
      they used before, or nobody did. */
  ghost predicate OnlyChanged(strings: seq<String>, texts: seq<seq<Byte>>, reprs: seq<set<object>>, blocks: seq<set<object>>, i: nat, j: nat)
    requires |texts| == |strings| == |reprs| == |blocks| && i < |strings| && j < |strings|
    reads strings, Footprint(strings)
  {
    && (forall k :: 0 <= k < |strings| && k != i && k != j ==>
          Untouched(strings[k], texts[k], reprs[k], blocks[k], strings[i].Repr + strings[j].Repr))
    && (i != j ==> Apart(strings[i], strings[j]))
  }

  ghost predicate Untouched(s: String, text: seq<Byte>, repr: set<object>, blocks: set<object>, others: set<object>)
    reads s, s.Repr
  {
    Holds(s, text) && s.Repr == repr && BlocksOf(s) == blocks && others !! repr
  }

  /** What such a change does to the live blocks. */
  ghost predicate Exchanged(live: set<object>, live': set<object>, old_: set<object>, new_: set<object>) {
    live' == live - old_ + new_
  }

  lemma Moved(live: set<object>, live': set<object>, a: set<object>, b: set<object>)
    requires b <= live && a !! b && live' == live - a
    ensures Exchanged(live, live', a + b, b + {})
  {
  }

  lemma ExchangedOne(live: set<object>, live': set<object>, a: set<object>, a': set<object>, b: set<object>)
    requires b <= live && a !! b && live' == live - a + a'
    ensures Exchanged(live, live', a + b, a' + b)
  {
  }

  lemma InRepr(s: String)
    requires s.Valid()
    ensures s in s.Repr && s.buf in s.Repr && BlocksOf(s) == s.Blocks() <= s.Repr - {s, s.buf}
  {
  }

  /** A string with its text and its block. */
  lemma NowHolds(s: String)
    requires s.Valid()
    ensures Holds(s, s.Contents()) && BlocksOf(s) == s.Blocks()
  {
  }

  /** What the pool says of two strings, and of all others beside them. */
  lemma TwoOfPool(store: Store, strings: seq<String>, texts: seq<seq<Byte>>, i: nat, j: nat)
    requires Pool(strings, texts) && Accounted(store, strings) && i < |strings| && j < |strings|
    ensures |texts| == |strings|
    ensures var s, t := strings[i], strings[j];
            && s.Valid() && s.Contents() == texts[i] && s in s.Repr && s.buf in s.Repr && s.Blocks() == BlocksOf(s) <= store.live
            && t.Valid() && t.Contents() == texts[j] && t in t.Repr && t.buf in t.Repr && t.Blocks() == BlocksOf(t) <= store.live
            && s.Blocks() <= s.Repr && t.Blocks() <= t.Repr
            && store !in s.Repr + t.Repr && (i != j ==> s.Repr !! t.Repr && s != t)
    ensures forall k :: 0 <= k < |strings| && k != i && k != j ==> Beside(strings, texts, i, j, k) && store !in strings[k].Repr
  {
    var s, t := strings[i], strings[j];
    assert Holds(s, texts[i]) && Holds(t, texts[j]) && (i != j ==> Apart(s, t));
    hide String.Valid, String.Contents, String.SizeOf, String.IsOnStack, String.Capacity, String.Blocks;
    InRepr(s);
    InRepr(t);
    BlocksAreLive(store, strings, i);
    BlocksAreLive(store, strings, j);
    forall k | 0 <= k < |strings| && k != i && k != j ensures Beside(strings, texts, i, j, k) && store !in strings[k].Repr {
      assert Holds(strings[k], texts[k]) && Apart(strings[k], s) && Apart(strings[k], t);
      InRepr(strings[k]);
      InFootprint(strings, k);
    }
  }

  ghost predicate Beside(strings: seq<String>, texts: seq<seq<Byte>>, i: nat, j: nat, k: nat)
    requires |texts| == |strings| && i < |strings| && j < |strings| && k < |strings|
    reads strings[i], strings[j], strings[k], strings[k].Repr
  {
    && Holds(strings[k], texts[k]) && strings[k] in strings[k].Repr && strings[k].Repr !! strings[i].Repr + strings[j].Repr
  }

  /** The operations between two different strings. */
  method AssignApart(store: Store, s: String, t: String)
    requires s.Valid() && t.Valid() && s.Repr !! t.Repr && store !in s.Repr + t.Repr && s.Blocks() <= store.live
    modifies s.Repr, store
    ensures s.Valid() && t.Valid() && fresh(s.Repr - old(s.Repr))
    ensures s.Contents() == t.Contents() == old(t.Contents()) && t.Blocks() == old(t.Blocks())
    ensures store.live == old(store.live) - old(s.Blocks()) + s.Blocks()
  {
    s.Assign(store, t);
  }

  method AppendApart(store: Store, s: String, t: String)
    requires s.Valid() && t.Valid() && s.Repr !! t.Repr && store !in s.Repr + t.Repr && s.Blocks() <= store.live
    modifies s.Repr, store
    ensures s.Valid() && t.Valid() && fresh(s.Repr - old(s.Repr))
    ensures s.Contents() == old(s.Contents() + t.Contents()) && t.Contents() == old(t.Contents()) && t.Blocks() == old(t.Blocks())
    ensures store.live == old(store.live) - old(s.Blocks()) + s.Blocks()
  {
    s.Append(store, t);
  }

  method MoveApart(store: Store, s: String, t: String)
    requires s.Valid() && t.Valid() && s.Repr !! t.Repr && store !in s.Repr + t.Repr && s.Blocks() <= store.live
    modifies s.Repr, t.Repr, store
    ensures s.Valid() && t.Valid() && s.Repr !! t.Repr && s.Repr + t.Repr <= old(s.Repr + t.Repr)
    ensures s.Contents() == old(t.Contents()) && t.Contents() == [] && s.Blocks() == old(t.Blocks()) && t.Blocks() == {}
    ensures store.live == old(store.live) - old(s.Blocks())
  {
    s.MoveAssign(store, t);
  }

  method AssignAt(store: Store, strings: seq<String>, ghost texts: seq<seq<Byte>>, i: nat, j: nat,
                  ghost reprs: seq<set<object>>, ghost blocks: seq<set<object>>)
    requires Pool(strings, texts) && Accounted(store, strings) && i < |strings| && j < |strings| && i != j
    requires reprs == Reprs(strings) && blocks == BlockSets(strings)
    modifies strings[i].Repr, store
    ensures OnlyChanged(strings, texts, reprs, blocks, i, j)
    ensures fresh(strings[i].Repr + strings[j].Repr - (reprs[i] + reprs[j]))
    ensures Holds(strings[i], texts[j]) && Holds(strings[j], texts[j])
    ensures Exchanged(old(store.live), store.live, blocks[i] + blocks[j], BlocksOf(strings[i]) + BlocksOf(strings[j]))
  {
    var s, t := strings[i], strings[j];
    hide String.Valid, String.Contents, String.SizeOf, String.IsOnStack, String.Capacity, String.Blocks,
         Pool, Accounted, Holds, BlocksOf, BlockSets, Footprint, Reprs, Exchanged;
    TwoOfPool(store, strings, texts, i, j);
    ghost var mine, theirs, live := blocks[i], blocks[j], store.live;
    AssignApart(store, s, t);
    NowHolds(s);
    ExchangedOne(live, store.live, mine, BlocksOf(s), theirs);
    NowHolds(s);
    NowHolds(t);
    forall k | 0 <= k < |strings| && k != i && k != j
      ensures Untouched(strings[k], texts[k], reprs[k], blocks[k], s.Repr + t.Repr)
    {
      assert old(Beside(strings, texts, i, j, k));
    }
  }

  /** A string assigned to itself stays as it is. */
  method SelfAt(store: Store, strings: seq<String>, ghost texts: seq<seq<Byte>>, i: nat, moving: bool)
    requires Pool(strings, texts) && Accounted(store, strings) && i < |strings|
    modifies strings[i].Repr, store
    ensures Pool(strings, texts) && Accounted(store, strings) && Footprint(strings) == old(Footprint(strings))
  {
    hide String.Valid, String.Contents, String.SizeOf, String.IsOnStack, String.Capacity, String.Blocks;
    TwoOfPool(store, strings, texts, i, i);
    if moving {
      strings[i].MoveAssign(store, strings[i]);
    } else {
      strings[i].Assign(store, strings[i]);
    }
  }

  method AppendAt(store: Store, strings: seq<String>, ghost texts: seq<seq<Byte>>, i: nat, j: nat,
                  ghost reprs: seq<set<object>>, ghost blocks: seq<set<object>>)
    requires Pool(strings, texts) && Accounted(store, strings) && i < |strings| && j < |strings| && i != j
    requires reprs == Reprs(strings) && blocks == BlockSets(strings)
    modifies strings[i].Repr, store
    ensures OnlyChanged(strings, texts, reprs, blocks, i, j)
    ensures fresh(strings[i].Repr + strings[j].Repr - (reprs[i] + reprs[j]))
    ensures Holds(strings[i], texts[i] + texts[j]) && Holds(strings[j], texts[j])
    ensures Exchanged(old(store.live), store.live, blocks[i] + blocks[j], BlocksOf(strings[i]) + BlocksOf(strings[j]))
  {
    var s, t := strings[i], strings[j];
    hide String.Valid, String.Contents, String.SizeOf, String.IsOnStack, String.Capacity, String.Blocks,
         Pool, Accounted, Holds, BlocksOf, BlockSets, Footprint, Reprs, Exchanged;
    TwoOfPool(store, strings, texts, i, j);
    ghost var mine, theirs, live := blocks[i], blocks[j], store.live;
    AppendApart(store, s, t);
    NowHolds(s);
    ExchangedOne(live, store.live, mine, BlocksOf(s), theirs);
    NowHolds(s);
    NowHolds(t);
    forall k | 0 <= k < |strings| && k != i && k != j
      ensures Untouched(strings[k], texts[k], reprs[k], blocks[k], s.Repr + t.Repr)
    {
      assert old(Beside(strings, texts, i, j, k));
    }
  }

  method MoveAt(store: Store, strings: seq<String>, ghost texts: seq<seq<Byte>>, i: nat, j: nat,
                  ghost reprs: seq<set<object>>, ghost blocks: seq<set<object>>)
    requires Pool(strings, texts) && Accounted(store, strings) && i < |strings| && j < |strings| && i != j
    requires reprs == Reprs(strings) && blocks == BlockSets(strings)
    modifies strings[i].Repr, strings[j].Repr, store
    ensures OnlyChanged(strings, texts, reprs, blocks, i, j)
    ensures fresh(strings[i].Repr + strings[j].Repr - (reprs[i] + reprs[j]))
    ensures Holds(strings[i], texts[j]) && Holds(strings[j], [])
    ensures Exchanged(old(store.live), store.live, blocks[i] + blocks[j], BlocksOf(strings[i]) + BlocksOf(strings[j]))
  {
    var s, t := strings[i], strings[j];
    hide String.Valid, String.Contents, String.SizeOf, String.IsOnStack, String.Capacity, String.Blocks,
         Pool, Accounted, Holds, BlocksOf, BlockSets, Footprint, Reprs, Exchanged;
    TwoOfPool(store, strings, texts, i, j);
    ghost var mine, theirs, live := blocks[i], blocks[j], store.live;
    MoveApart(store, s, t);
    NowHolds(s);
    NowHolds(t);
    Moved(live, store.live, mine, theirs);
    forall k | 0 <= k < |strings| && k != i && k != j
      ensures Untouched(strings[k], texts[k], reprs[k], blocks[k], s.Repr + t.Repr)
    {
      assert old(Beside(strings, texts, i, j, k));
    }
  }

  lemma BlocksAreLive(store: Store, strings: seq<String>, i: nat)
    requires Accounted(store, strings) && i < |strings|
    ensures BlocksOf(strings[i]) <= store.live && strings[i].Repr <= Footprint(strings)
  {
    assert forall o :: o in BlockSets(strings)[i] ==> o in Union(BlockSets(strings));
  }

  /** A new string takes over what the `j`-th one held. */
  method TakeOver(strings: seq<String>, ghost texts: seq<seq<Byte>>, j: nat) returns (s: String)
    requires Pool(strings, texts) && j < |strings|
    modifies strings[j], strings[j].buf
    ensures OnlyChanged(strings, texts, old(Reprs(strings)), old(BlockSets(strings)), j, j) && Holds(strings[j], []) && Holds(s, texts[j])
    ensures strings[j].Repr <= old(strings[j].Repr)
    ensures Apart(strings[j], s) && fresh(s.Repr - old(strings[j].Repr)) && s !in strings
    ensures BlocksOf(s) == old(BlocksOf(strings[j])) && BlocksOf(strings[j]) == {}
  {
    var t := strings[j];
    assert Holds(t, texts[j]);
    hide String.Valid, String.Contents, String.SizeOf, String.IsOnStack, String.Capacity, String.Blocks;
    forall k | 0 <= k < |strings| && k != j ensures strings[k].Repr !! t.Repr { assert Apart(strings[k], t); }
    InRepr(t);
    s := new String.MoveOf(t);
  }

  ghost predicate AllApart(reprs: seq<set<object>>) {
    forall a, b :: 0 <= a < |reprs| && 0 <= b < |reprs| && a != b ==> reprs[a] !! reprs[b]
  }

  lemma PoolIsApart(strings: seq<String>, texts: seq<seq<Byte>>)
    requires Pool(strings, texts)
    ensures AllApart(Reprs(strings)) && BlocksWithin(BlockSets(strings), Reprs(strings), Footprint(strings))
  {
    hide String.Valid, String.Blocks;
    forall a, b | 0 <= a < |strings| && 0 <= b < |strings| && a != b ensures strings[a].Repr !! strings[b].Repr {
      assert Apart(strings[a], strings[b]);
    }
    forall k | 0 <= k < |strings| ensures BlocksOf(strings[k]) <= strings[k].Repr <= Footprint(strings) {
      assert Holds(strings[k], texts[k]);
      InRepr(strings[k]);
      InFootprint(strings, k);
    }
  }

  ghost predicate BlocksWithin(blocks: seq<set<object>>, reprs: seq<set<object>>, footprint: set<object>) {
    |blocks| == |reprs| && forall k :: 0 <= k < |blocks| ==> blocks[k] <= reprs[k] <= footprint
  }

  /** After such a change no two strings share memory. */
  lemma PoolAfter(strings: seq<String>, texts: seq<seq<Byte>>, reprs: seq<set<object>>, blocks: seq<set<object>>, footprint: set<object>,
                  i: nat, j: nat, texts': seq<seq<Byte>>)
    requires |texts| == |strings| == |texts'| == |reprs| && i < |strings| && j < |strings|
    requires AllApart(reprs) && BlocksWithin(blocks, reprs, footprint)
    requires OnlyChanged(strings, texts, reprs, blocks, i, j)
    requires Holds(strings[i], texts'[i]) && Holds(strings[j], texts'[j])
    requires forall k :: 0 <= k < |strings| && k != i && k != j ==> texts'[k] == texts[k]
    ensures Pool(strings, texts') && Footprint(strings) <= footprint + strings[i].Repr + strings[j].Repr
  {
    hide Holds;
    forall a, b | 0 <= a < |strings| && 0 <= b < |strings| && a != b ensures Apart(strings[a], strings[b]) {
      assert a != i && a != j ==> Untouched(strings[a], texts[a], reprs[a], blocks[a], strings[i].Repr + strings[j].Repr);
      assert b != i && b != j ==> Untouched(strings[b], texts[b], reprs[b], blocks[b], strings[i].Repr + strings[j].Repr);
      if a != i && a != j && b != i && b != j { assert reprs[a] !! reprs[b]; }
    }
    forall k | 0 <= k < |strings| ensures Holds(strings[k], texts'[k]) {
      if k != i && k != j { assert Untouched(strings[k], texts[k], reprs[k], blocks[k], strings[i].Repr + strings[j].Repr); }
    }
    forall o | o in Footprint(strings) ensures o in footprint + strings[i].Repr + strings[j].Repr {
      var k :| 0 <= k < |strings| && o in strings[k].Repr;
      if k != i && k != j { assert Untouched(strings[k], texts[k], reprs[k], blocks[k], strings[i].Repr + strings[j].Repr); }
    }
  }

  /** Nor is any block lost, or deleted that is still used. */
  lemma UnionAfter(live: set<object>, live': set<object>, blocks: seq<set<object>>, blocks': seq<set<object>>,
                   reprs: seq<set<object>>, footprint: set<object>, i: nat, j: nat)
    requires |blocks| == |blocks'| && i < |blocks| && j < |blocks| && live == Union(blocks)
    requires AllApart(reprs) && BlocksWithin(blocks, reprs, footprint)
    requires forall k :: 0 <= k < |blocks| && k != i && k != j ==> blocks'[k] == blocks[k]
    requires Exchanged(live, live', blocks[i] + blocks[j], blocks'[i] + blocks'[j])
    ensures live' == Union(blocks')
  {
    forall o ensures o in live' <==> o in Union(blocks') {
      if o in live' && o !in blocks'[i] + blocks'[j] {
        var k :| 0 <= k < |blocks| && o in blocks[k];
        assert o in blocks'[k];
      }
      if o in Union(blocks') && o !in blocks'[i] + blocks'[j] {
        var k :| 0 <= k < |blocks'| && o in blocks'[k];
        assert o in blocks[k] && reprs[k] !! reprs[i] && reprs[k] !! reprs[j];
      }
    }
  }

  lemma InFootprint(strings: seq<String>, i: nat)
    requires i < |strings|
    ensures strings[i].Repr <= Footprint(strings)
  {
  }

  method Add(store: Store, strings: seq<String>, ghost texts: seq<seq<Byte>>, op: Op) returns (strings': seq<String>)
    requires Pool(strings, texts) && Accounted(store, strings) && Possible(|texts|, op) && (op.Make? || op.CopyOf?)
    modifies store
    ensures Pool(strings', Meaning(texts, op)) && Accounted(store, strings') && fresh(Footprint(strings') - Footprint(strings))
  {
    hide Pool, Holds, Apart, Meaning, Footprint, Reprs, BlockSets, BlocksOf, Union;
    PoolParts(strings, texts);
    var s := Create(store, strings, texts, op);
    NowHolds(s);
    OneMoreString(strings, texts, s, s.Contents());
    strings' := strings + [s];
    AddedFootprint(strings, s);
    AddedBlocks(strings, s);
  }

  method AddTaken(store: Store, strings: seq<String>, ghost texts: seq<seq<Byte>>, j: nat) returns (strings': seq<String>)
    requires Pool(strings, texts) && Accounted(store, strings) && j < |texts|
    modifies Footprint(strings)
    ensures Pool(strings', texts[j := []] + [texts[j]]) && Accounted(store, strings')
    ensures fresh(Footprint(strings') - old(Footprint(strings)))
  {
    hide Pool, Holds, OnlyChanged, Apart, Footprint, BlockSets, BlocksOf, Union, Exchanged;
    PoolParts(strings, texts);
    PoolIsApart(strings, texts);
    ghost var reprs, blocks, footprint := Reprs(strings), BlockSets(strings), Footprint(strings);
    var s := TakeOver(strings, texts, j);
    PoolAfter(strings, texts, reprs, blocks, footprint, j, j, texts[j := []]);
    TakenIsApart(strings, texts, reprs, blocks, j, s);
    OneMoreString(strings, texts[j := []], s, texts[j]);
    strings' := strings + [s];
    AddedFootprint(strings, s);
    TakenBlocks(strings, texts, reprs, blocks, j, s);
  }

  method Change(store: Store, strings: seq<String>, ghost texts: seq<seq<Byte>>, op: Op)
    requires Pool(strings, texts) && Accounted(store, strings)
    requires Possible(|texts|, op) && (op.Assign? || op.MoveAssign? || op.Append?)
    modifies Footprint(strings), store
    ensures Pool(strings, Meaning(texts, op)) && Accounted(store, strings) && fresh(Footprint(strings) - old(Footprint(strings)))
  {
    hide Pool, Holds, OnlyChanged, Apart, Footprint, BlockSets, BlocksOf, Union, Exchanged;
    PoolParts(strings, texts);
    PoolIsApart(strings, texts);
    ghost var reprs, blocks, footprint, live := Reprs(strings), BlockSets(strings), Footprint(strings), store.live;
    if !op.Append? && op.i == op.j {
      SelfAt(store, strings, texts, op.i, op.MoveAssign?);
      SelfMeans(texts, op);
      return;
    }
    if op.Assign? {
      AssignAt(store, strings, texts, op.i, op.j, reprs, blocks);
    } else if op.Append? {
      AppendAt(store, strings, texts, op.i, op.j, reprs, blocks);
    } else {
      MoveAt(store, strings, texts, op.i, op.j, reprs, blocks);
    }
    PoolAfter(strings, texts, reprs, blocks, footprint, op.i, op.j, Meaning(texts, op));
    OthersKeepBlocks(strings, texts, reprs, blocks, op.i, op.j);
    UnionAfter(live, store.live, blocks, BlockSets(strings), reprs, footprint, op.i, op.j);
  }

  lemma SelfMeans(texts: seq<seq<Byte>>, op: Op)
    requires Possible(|texts|, op) && (op.Assign? || op.MoveAssign?) && op.i == op.j
    ensures Meaning(texts, op) == texts
  {
  }

  lemma OthersKeepBlocks(strings: seq<String>, texts: seq<seq<Byte>>, reprs: seq<set<object>>, blocks: seq<set<object>>, i: nat, j: nat)
    requires |texts| == |strings| == |reprs| == |blocks| && i < |strings| && j < |strings|
    requires OnlyChanged(strings, texts, reprs, blocks, i, j)
    ensures forall k :: 0 <= k < |strings| && k != i && k != j ==> BlockSets(strings)[k] == blocks[k]
  {
    hide Holds, BlocksOf;
    forall k | 0 <= k < |strings| && k != i && k != j ensures BlockSets(strings)[k] == blocks[k] {
      assert Untouched(strings[k], texts[k], reprs[k], blocks[k], strings[i].Repr + strings[j].Repr);
    }
  }

  /** The destructor, of one string of the pool. */
  method DestroyAt(store: Store, strings: seq<String>, ghost texts: seq<seq<Byte>>, i: nat) returns (strings': seq<String>)
    requires Pool(strings, texts) && Accounted(store, strings) && i < |strings|
    modifies store, Footprint(strings)
    ensures strings' == strings[..i] + strings[i + 1..]
    ensures Pool(strings', texts[..i] + texts[i + 1..]) && Accounted(store, strings')
    ensures Footprint(strings') <= old(Footprint(strings))
  {
    hide String.Valid, String.Contents, String.SizeOf, String.IsOnStack, String.Capacity, String.Blocks,
         Pool, Holds, BlocksOf, BlockSets, Footprint, Reprs, Union;
    TwoOfPool(store, strings, texts, i, i);
    PoolIsApart(strings, texts);
    LessOne(strings, texts, i);
    UnionLess(BlockSets(strings), Reprs(strings), Footprint(strings), i);
    InFootprint(strings, i);
    strings' := strings[..i] + strings[i + 1..];
    RestIsApart(strings, texts, i);
    FreeApart(store, strings[i], strings', texts[..i] + texts[i + 1..]);
  }

  /** Deleting the block of a string that is apart from all others. */
  method FreeApart(store: Store, s: String, strings: seq<String>, ghost texts: seq<seq<Byte>>)
    requires Pool(strings, texts) && s.Valid() && s.Repr !! Footprint(strings) && store !in Footprint(strings) + s.Repr
    requires BlocksOf(s) <= store.live
    modifies store, s.Repr
    ensures Pool(strings, texts) && store.live == old(store.live) - old(BlocksOf(s))
    ensures Footprint(strings) == old(Footprint(strings)) && BlockSets(strings) == old(BlockSets(strings))
  {
    InRepr(s);
    PoolParts(strings, texts);
    hide String.Valid, String.Contents, String.SizeOf, String.IsOnStack, String.Capacity, String.Blocks;
    s.Free(store);
    SameBlockSets(old(BlockSets(strings)), strings);
  }

  lemma RestIsApart(strings: seq<String>, texts: seq<seq<Byte>>, i: nat)
    requires Pool(strings, texts) && i < |strings|
    ensures strings[i].Repr !! Footprint(strings[..i] + strings[i + 1..])
  {
    var rest := strings[..i] + strings[i + 1..];
    forall o | o in Footprint(rest) ensures o !in strings[i].Repr {
      var k :| 0 <= k < |rest| && o in rest[k].Repr;
      assert Apart(strings[if k < i then k else k + 1], strings[i]);
    }
  }

  lemma LessOne(strings: seq<String>, texts: seq<seq<Byte>>, i: nat)
    requires Pool(strings, texts) && i < |strings|
    ensures |texts| == |strings|
    ensures var strings', texts' := strings[..i] + strings[i + 1..], texts[..i] + texts[i + 1..];
            && Pool(strings', texts') && Footprint(strings') <= Footprint(strings)
            && BlockSets(strings') == BlockSets(strings)[..i] + BlockSets(strings)[i + 1..]
  {
    hide Holds, BlocksOf;
    var strings', texts' := strings[..i] + strings[i + 1..], texts[..i] + texts[i + 1..];
    forall a, b | 0 <= a < |strings'| && 0 <= b < |strings'| && a != b ensures Apart(strings'[a], strings'[b]) {
      assert Apart(strings[if a < i then a else a + 1], strings[if b < i then b else b + 1]);
    }
    forall k | 0 <= k < |strings'| ensures Holds(strings'[k], texts'[k]) {
      assert Holds(strings[if k < i then k else k + 1], texts[if k < i then k else k + 1]);
    }
    forall o | o in Footprint(strings') ensures o in Footprint(strings) {
      var k :| 0 <= k < |strings'| && o in strings'[k].Repr;
      InFootprint(strings, if k < i then k else k + 1);
    }
  }

  lemma UnionLess(blocks: seq<set<object>>, reprs: seq<set<object>>, footprint: set<object>, i: nat)
    requires i < |blocks| && AllApart(reprs) && BlocksWithin(blocks, reprs, footprint)
    ensures Union(blocks[..i] + blocks[i + 1..]) == Union(blocks) - blocks[i]
  {
    var rest := blocks[..i] + blocks[i + 1..];
    forall o ensures o in Union(rest) <==> o in Union(blocks) - blocks[i] {
      if o in Union(rest) {
        var k :| 0 <= k < |rest| && o in rest[k];
        var m := if k < i then k else k + 1;
        assert o in blocks[m] && reprs[m] !! reprs[i];
      }
      if o in Union(blocks) - blocks[i] {
        var m :| 0 <= m < |blocks| && o in blocks[m];
        assert o in rest[if m < i then m else m - 1];
      }
    }
  }

  lemma PoolParts(strings: seq<String>, texts: seq<seq<Byte>>)
    requires Pool(strings, texts)
    ensures |strings| == |texts|
    ensures forall i :: 0 <= i < |strings| ==>
              strings[i] in Footprint(strings) && strings[i].buf in Footprint(strings) && strings[i].Repr <= Footprint(strings)
  {
    forall i | 0 <= i < |strings|
      ensures strings[i] in Footprint(strings) && strings[i].buf in Footprint(strings) && strings[i].Repr <= Footprint(strings)
    {
      assert Holds(strings[i], texts[i]);
      InRepr(strings[i]);
      InFootprint(strings, i);
    }
  }

  /** What the new string took over from the `j`-th one, or brought, no other string has. */
  lemma TakenIsApart(strings: seq<String>, texts: seq<seq<Byte>>, reprs: seq<set<object>>, blocks: seq<set<object>>, j: nat, s: String)
    requires |texts| == |reprs| == |strings| == |blocks| && j < |strings| && AllApart(reprs)
    requires OnlyChanged(strings, texts, reprs, blocks, j, j)
    requires Apart(strings[j], s) && forall k :: 0 <= k < |strings| && k != j ==> s.Repr - reprs[j] !! reprs[k]
    ensures s.Repr !! Footprint(strings)
  {
    forall o | o in Footprint(strings) ensures o !in s.Repr {
      var k :| 0 <= k < |strings| && o in strings[k].Repr;
      if k != j {
        assert Untouched(strings[k], texts[k], reprs[k], blocks[k], strings[j].Repr + strings[j].Repr);
        assert reprs[k] !! reprs[j];
      }
    }
  }

  /** With the text its block has changed hands. */
  lemma TakenBlocks(strings: seq<String>, texts: seq<seq<Byte>>, reprs: seq<set<object>>, blocks: seq<set<object>>, j: nat, s: String)
    requires |texts| == |strings| == |reprs| == |blocks| && j < |strings| && OnlyChanged(strings, texts, reprs, blocks, j, j)
    requires BlocksOf(s) == blocks[j] && BlocksOf(strings[j]) == {}
    ensures Union(BlockSets(strings + [s])) == Union(blocks)
  {
    hide OnlyChanged, BlocksOf;
    OthersKeepBlocks(strings, texts, reprs, blocks, j, j);
    var all, now := BlockSets(strings + [s]), BlockSets(strings);
    forall o ensures o in Union(all) <==> o in Union(blocks) {
      if o in Union(all) {
        var k :| 0 <= k < |all| && o in all[k];
        if k < |strings| && k != j { assert all[k] == now[k]; }
        assert o in blocks[if k == |strings| then j else k];
      }
      if o in Union(blocks) {
        var k :| 0 <= k < |blocks| && o in blocks[k];
        if k != j { assert all[k] == now[k]; }
        assert o in all[if k == j then |strings| else k];
      }
    }
  }

  lemma AddedBlocks(strings: seq<String>, s: String)
    ensures Union(BlockSets(strings + [s])) == Union(BlockSets(strings)) + BlocksOf(s)
  {
    hide BlocksOf;
    var all, now := BlockSets(strings + [s]), BlockSets(strings);
    assert all == now + [BlocksOf(s)];
    UnionAppend(now, BlocksOf(s));
  }

  lemma UnionAppend(sets: seq<set<object>>, last: set<object>)
    ensures Union(sets + [last]) == Union(sets) + last
  {
    var all := sets + [last];
    forall o | o in Union(sets) + last ensures o in Union(all) {
      if o in Union(sets) {
        var k :| 0 <= k < |sets| && o in sets[k];
        assert o in all[k];
      } else {
        assert o in all[|sets|];
      }
    }
    forall o | o in Union(all) ensures o in Union(sets) + last {
      var k :| 0 <= k < |all| && o in all[k];
      if k < |sets| { assert o in sets[k]; }
    }
  }

  lemma AddedFootprint(strings: seq<String>, s: String)
    ensures Footprint(strings + [s]) == Footprint(strings) + s.Repr
  {
    var all := strings + [s];
    forall o | o in s.Repr ensures o in Footprint(all) { assert all[|strings|] == s; }
    forall o | o in Footprint(strings) ensures o in Footprint(all) {
      var i :| 0 <= i < |strings| && o in strings[i].Repr;
      assert all[i] == strings[i];
    }
    forall o | o in Footprint(all) ensures o in Footprint(strings) + s.Repr {
      var i :| 0 <= i < |all| && o in all[i].Repr;
      if i < |strings| { assert all[i] == strings[i]; }
    }
  }

  method RunOne(store: Store, strings: seq<String>, ghost texts: seq<seq<Byte>>, op: Op) returns (strings': seq<String>)
    requires Pool(strings, texts) && Accounted(store, strings)
    modifies Footprint(strings), store
    ensures Pool(strings', Meaning(texts, op)) && Accounted(store, strings') && fresh(Footprint(strings') - old(Footprint(strings)))
  {
    PoolParts(strings, texts);
    hide Pool, Accounted, Footprint;
    strings' := strings;
    if !Possible(|strings|, op) {
      ImpossibleDoesNothing(texts, op);
    } else if op.Make? || op.CopyOf? {
      hide Meaning;
      strings' := Add(store, strings, texts, op);
    } else if op.MoveOf? {
      strings' := AddTaken(store, strings, texts, op.j);
    } else if op.Destroy? {
      strings' := DestroyAt(store, strings, texts, op.i);
    } else {
      hide Meaning;
      Change(store, strings, texts, op);
    }
  }

  /** In any run of operations between distinct strings, every string stays equal to the plain
      bytes that the operations mean, no two strings share memory, every block is deleted at
      most once, and those not deleted yet are just the ones that some string will delete. */
  method RunOps(ops: seq<Op>) returns (store: Store, strings: seq<String>)
    ensures fresh(store) && Pool(strings, Meanings(ops)) && Accounted(store, strings) && fresh(Footprint(strings))
  {
    store := new Store();
    strings := [];
    NoStrings(store);
    hide Pool, Meaning, Accounted;
    for k := 0 to |ops|
      invariant fresh(store) && Pool(strings, Meanings(ops[..k])) && Accounted(store, strings) && fresh(Footprint(strings))
    {
      assert ops[..k + 1][..k] == ops[..k];
      ghost var before := Footprint(strings);
      strings := RunOne(store, strings, Meanings(ops[..k]), ops[k]);
      assert Footprint(strings) <= before + (Footprint(strings) - before);
    }
    assert ops[..|ops|] == ops;
  }

  /** When all strings are gone, every block has been deleted. */
  method RunProgram(ops: seq<Op>) returns (store: Store)
    ensures fresh(store) && store.live == {}
  {
    var strings;
    store, strings := RunOps(ops);
    ghost var texts := Meanings(ops);
    hide Pool, Footprint, Union, BlockSets;
    while strings != []
      invariant fresh(store) && Pool(strings, texts) && Accounted(store, strings) && fresh(Footprint(strings))
      decreases |strings|
    {
      PoolParts(strings, texts);
      strings := DestroyAt(store, strings, texts, 0);
      texts := texts[..0] + texts[1..];
    }
    NoBlocks();
  }

  lemma NoBlocks()
    ensures Union(BlockSets([])) == {}
  {
  }

  lemma NoStrings(store: Store)
    requires store.live == {}
    ensures Pool([], Meanings([])) && Footprint([]) == {} && Accounted(store, [])
  {
  }

  lemma ImpossibleDoesNothing(texts: seq<seq<Byte>>, op: Op)
    requires !Possible(|texts|, op)
    ensures Meaning(texts, op) == texts
  {
  }
}
