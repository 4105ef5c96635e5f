/**
 Runs of operations on one arena between two calls of Free: allocations, messages, any number of slices and any number
 of repeated messages, in any order (internal/arena/arena.go, internal/arena/slice/slice.go,
 internal/tdp/vm/message.go and internal/tdp/thunks/repeated_message.go).
 */
module ArenaRun {
  import opened A = Arena
  import opened ArenaSize
  import opened ArenaSlice
  import opened Base128
  import opened RepeatedMessage
  import opened Words

  // ----- What a run means -----

  /**
   An operation: Alloc, AllocMessage, Make, Append or Grow on one of the slices, or one more message in one of the
   lists of messages.
   */
  datatype Op =
    | Alloc(size: nat)
    | Message(size: nat, header: seq<byte>)
    | Make(i: nat, n: nat)
    | Append(i: nat, count: nat, data: seq<byte>)
    | Grow(i: nat, n: nat)
    | Add(k: nat, header: seq<byte>)

  /**
   What was written: the bytes of every slice, the headers of the messages of every list, and the bytes of every block.
   */
  datatype Model = Model(slices: seq<seq<byte>>, lists: seq<seq<seq<byte>>>, blocks: seq<seq<byte>>)

  function Zeros(n: nat): seq<byte> {
    seq(n, _ => 0)
  }

  /** What the source demands of the operation. */
  predicate OpOk(op: Op, elems: seq<nat>, lists: nat) {
    match op
    case Alloc(_) => true
    case Message(size, header) => size % ALIGN == 0 && 0 < |header| <= size
    case Make(i, _) => i < |elems|
    case Append(i, count, data) => i < |elems| && |data| == Span(elems[i], count)
    case Grow(i, _) => i < |elems|
    case Add(k, header) => k < lists && |header| == HEADER
  }

  function Apply(m: Model, op: Op, elems: seq<nat>): Model
    requires |m.slices| == |elems| && OpOk(op, elems, |m.lists|)
  {
    match op
    case Alloc(size) => m.(blocks := m.blocks + [Zeros(RoundUp(size))])
    case Message(size, header) => m.(blocks := m.blocks + [header + Zeros(size - |header|)])
    case Make(i, n) => m.(slices := m.slices[i := Zeros(Span(elems[i], n))])
    case Append(i, _, data) => m.(slices := m.slices[i := m.slices[i] + data])
    case Grow(_, _) => m
    case Add(k, header) => m.(lists := m.lists[k := m.lists[k] + [header]])
  }

  function ApplyAll(m: Model, ops: seq<Op>, elems: seq<nat>): (r: Model)
    requires |m.slices| == |elems| && forall i :: 0 <= i < |ops| ==> OpOk(ops[i], elems, |m.lists|)
    ensures |r.slices| == |m.slices| && |r.lists| == |m.lists|
  {
    if ops == [] then m
    else Apply(ApplyAll(m, ops[..|ops| - 1], elems), ops[|ops| - 1], elems)
  }

  /** The bytes that operations append to slice i, one after another. */
  function Data(ops: seq<Op>, i: nat): seq<byte> {
    if ops == [] then []
    else
      var op := ops[|ops| - 1];
      Data(ops[..|ops| - 1], i) + if op.Append? && op.i == i then op.data else []
  }

  /** The headers of the messages that operations add to list k. */
  function Headers(ops: seq<Op>, k: nat): seq<seq<byte>> {
    if ops == [] then []
    else
      var op := ops[|ops| - 1];
      Headers(ops[..|ops| - 1], k) + if op.Add? && op.k == k then [op.header] else []
  }

  /** The bytes of the blocks that operations hand out: zeros, but for the header of a message. */
  function Blocks(ops: seq<Op>): seq<seq<byte>> {
    if ops == [] then []
    else Blocks(ops[..|ops| - 1]) + Handed(ops[|ops| - 1])
  }

  function Handed(op: Op): seq<seq<byte>> {
    match op
    case Alloc(size) => [Zeros(RoundUp(size))]
    case Message(size, header) => [if |header| <= size then header + Zeros(size - |header|) else header]
    case _ => []
  }

  /**
   Nothing that is appended, added or handed out is lost, nor put elsewhere: a list has all its headers in order, a
   slice all the bytes that were appended to it since it was made.
   */
  lemma {:induction false} RunKeepsAll(m: Model, ops: seq<Op>, elems: seq<nat>, i: nat, k: nat)
    requires |m.slices| == |elems| && forall j :: 0 <= j < |ops| ==> OpOk(ops[j], elems, |m.lists|)
    ensures var r := ApplyAll(m, ops, elems);
            && r.blocks == m.blocks + Blocks(ops) && (k < |m.lists| ==> r.lists[k] == m.lists[k] + Headers(ops, k))
            && (i < |m.slices| && !Remade(ops, i) ==> r.slices[i] == m.slices[i] + Data(ops, i))
    decreases |ops|
  {
    hide OpOk, Apply, ApplyAll, Handed, Remade, Data, Headers, Blocks;
    RunMore(m, ops, elems, i, k);
    if ops != [] {
      var before := ops[..|ops| - 1];
      if !Remade(ops, i) {
        NotRemade(ops, i);
      }
      RunKeepsAll(m, before, elems, i, k);
      OpKeepsAll(ApplyAll(m, before, elems), ops[|ops| - 1], elems, i, k);
    }
  }

  lemma RunMore(m: Model, ops: seq<Op>, elems: seq<nat>, i: nat, k: nat)
    requires |m.slices| == |elems| && forall j :: 0 <= j < |ops| ==> OpOk(ops[j], elems, |m.lists|)
    ensures if ops == [] then
            ApplyAll(m, ops, elems) == m && Data(ops, i) == [] && Headers(ops, k) == [] && Blocks(ops) == []
            else
              var before, op := ops[..|ops| - 1], ops[|ops| - 1];
              && ApplyAll(m, ops, elems) == Apply(ApplyAll(m, before, elems), op, elems)
              && Data(ops, i) == Data(before, i) + (if op.Append? && op.i == i then op.data else [])
              && Headers(ops, k) == Headers(before, k) + (if op.Add? && op.k == k then [op.header] else [])
              && Blocks(ops) == Blocks(before) + Handed(op)
  {
    hide OpOk, Apply, Handed;
  }

  lemma NotRemade(ops: seq<Op>, i: nat)
    requires ops != [] && !Remade(ops, i)
    ensures !Remade(ops[..|ops| - 1], i) && !(ops[|ops| - 1].Make? && ops[|ops| - 1].i == i)
  {
  }

  lemma OpKeepsAll(m: Model, op: Op, elems: seq<nat>, i: nat, k: nat)
    requires |m.slices| == |elems| && OpOk(op, elems, |m.lists|)
    ensures var r := Apply(m, op, elems);
            && r.blocks == m.blocks + Handed(op)
            && (k < |m.lists| ==> r.lists[k] == m.lists[k] + if op.Add? && op.k == k then [op.header] else [])
            && (i < |m.slices| && !(op.Make? && op.i == i) ==>
                  r.slices[i] == m.slices[i] + if op.Append? && op.i == i then op.data else [])
  {
    hide RoundUp, Span, Zeros;
  }

  /** Some operation makes slice i anew. */
  predicate Remade(ops: seq<Op>, i: nat) {
    exists j :: 0 <= j < |ops| && ops[j].Make? && ops[j].i == i
  }

  /** A slice that was made holds its zeros and all that was appended since. */
  lemma MadeKeepsAll(m: Model, ops: seq<Op>, elems: seq<nat>, j: nat)
    requires |m.slices| == |elems| && forall j :: 0 <= j < |ops| ==> OpOk(ops[j], elems, |m.lists|)
    requires j < |ops| && ops[j].Make? && ops[j].i < |elems| && !Remade(ops[j + 1..], ops[j].i)
    ensures ApplyAll(m, ops, elems).slices[ops[j].i] ==
            Zeros(Span(elems[ops[j].i], ops[j].n)) + Data(ops[j + 1..], ops[j].i)
  {
    hide OpOk, Span, Remade, ApplyAll, Apply, Data;
    var i := ops[j].i;
    var first, rest := ops[..j + 1], ops[j + 1..];
    assert first[..j] == ops[..j] && first + rest == ops;
    RunJoin(m, first, rest, elems);
    RunKeepsAll(ApplyAll(m, first, elems), rest, elems, i, 0);
    LastMade(m, first, elems);
  }

  lemma LastMade(m: Model, ops: seq<Op>, elems: seq<nat>)
    requires |m.slices| == |elems| && forall j :: 0 <= j < |ops| ==> OpOk(ops[j], elems, |m.lists|)
    requires ops != [] && ops[|ops| - 1].Make? && ops[|ops| - 1].i < |elems|
    ensures var op := ops[|ops| - 1]; ApplyAll(m, ops, elems).slices[op.i] == Zeros(Span(elems[op.i], op.n))
  {
    hide Span;
  }

  lemma {:induction false} RunJoin(m: Model, first: seq<Op>, rest: seq<Op>, elems: seq<nat>)
    requires |m.slices| == |elems| && forall j :: 0 <= j < |first| ==> OpOk(first[j], elems, |m.lists|)
    requires forall j :: 0 <= j < |rest| ==> OpOk(rest[j], elems, |m.lists|)
    ensures forall j :: 0 <= j < |first + rest| ==> OpOk((first + rest)[j], elems, |m.lists|)
    ensures ApplyAll(m, first + rest, elems) == ApplyAll(ApplyAll(m, first, elems), rest, elems)
    decreases |rest|
  {
    hide OpOk, Apply;
    if rest == [] {
      assert first + rest == first;
    } else {
      var all := first + rest;
      assert all[..|all| - 1] == first + rest[..|rest| - 1];
      RunJoin(m, first, rest[..|rest| - 1], elems);
    }
  }

  /** Nil slices and empty lists. */
  function Nothing(elems: seq<nat>, lists: nat): Model {
    Model(seq(|elems|, _ => []), seq(lists, _ => []), [])
  }

  // ----- What is in memory -----

  /** A slice holds the given bytes, and zeros after them. */
  ghost predicate SliceOk(live: seq<Region>, mem: seq<byte>, at: nat, s: Slice, elem: nat, data: seq<byte>) {
    && elem > 0 && Owns(live, at, s, elem) && s.cap < TWO32 && (s.ptr == 0 ==> s.cap == 0)
    && (s.cap > 0 ==> at < |live| && live[at].start + live[at].size <= |mem|)
    && Contents(mem, s, elem) == data && Clean(mem, s, elem)
  }

  /** A list holds messages with the given headers and no fields set. */
  ghost predicate ListOk(live: seq<Region>, mem: seq<byte>, l: List, headers: seq<seq<byte>>)
    reads l
  {
    && l.Ok(live, mem) && |l.Addresses(mem)| == |headers|
    && (forall i :: 0 <= i < |headers| ==> IsNew(mem, l.Addresses(mem)[i], headers[i], l.stride))
  }

  /** A block that was handed out holds the given bytes; an empty one is nowhere. */
  ghost predicate BlockOk(live: seq<Region>, mem: seq<byte>, at: nat, data: seq<byte>) {
    data != [] ==> at < |live| && live[at].size == |data| && live[at].start + |data| <= |mem|
                   && mem[live[at].start..live[at].start + |data|] == data
  }

  lemma SliceStays(live: seq<Region>, more: seq<Region>, touched: nat, before: seq<byte>, after: seq<byte>, at: nat,
                   s: Slice, elem: nat, data: seq<byte>)
    requires SliceOk(live, before, at, s, elem, data) && Steady(live, more, touched, before, after)
    requires s.cap > 0 ==> at != touched
    ensures SliceOk(more, after, at, s, elem, data)
  {
    hide Owns, Contents, Clean, OthersKept;
    SliceSteady(live, more, touched, before, after, at, s, elem);
    SteadySize(live, more, touched, before, after);
    OwnsRegion(live, at, s, elem);
  }

  lemma OwnsRegion(live: seq<Region>, at: nat, s: Slice, elem: nat)
    requires Owns(live, at, s, elem)
    ensures s.cap > 0 ==> at < |live|
  {
  }

  lemma SteadySize(live: seq<Region>, more: seq<Region>, touched: nat, before: seq<byte>, after: seq<byte>)
    requires Steady(live, more, touched, before, after)
    ensures |before| == |after| && |live| <= |more|
  {
  }

  lemma BlockStays(live: seq<Region>, more: seq<Region>, touched: nat, before: seq<byte>, after: seq<byte>, at: nat,
                   data: seq<byte>)
    requires BlockOk(live, before, at, data) && Steady(live, more, touched, before, after)
    requires data != [] ==> at != touched
    ensures BlockOk(more, after, at, data)
  {
    hide Kept;
    if data != [] {
      KeptAt([live[at]], before, after, 0);
    }
  }

  /** A list that is not stored in the region that changes stays as it is, and its messages where they are. */
  lemma ListStays(live: seq<Region>, more: seq<Region>, touched: nat, before: seq<byte>, after: seq<byte>, l: List,
                  headers: seq<seq<byte>>)
    requires ListOk(live, before, l, headers) && Steady(live, more, touched, before, after) && touched !in l.Footprint()
    requires forall j :: 0 <= j < |live| ==> live[j].start + live[j].size <= |before|
    ensures ListOk(more, after, l, headers) && l.Addresses(after) == l.Addresses(before)
  {
    hide Owns, Contents, Clean, Steady, Placed, InlineAt, IsNew, SameMessages, Bytes;
    SteadySize(live, more, touched, before, after);
    SlotStays(live, more, touched, before, after, l);
    var addrs := l.Addresses(before);
    PlacedWithin(live, addrs, l.stride, l.homes, |before|);
    MessagesSteady(live, more, touched, before, after, addrs, l.stride, l.homes);
    forall i | 0 <= i < |headers|
      ensures IsNew(after, addrs[i], headers[i], l.stride)
    {
      SameAt(before, after, addrs, l.stride, i);
      NewStays(before, after, addrs[i], headers[i], l.stride);
    }
  }

  lemma PlacedWithin(live: seq<Region>, addrs: seq<nat>, stride: nat, homes: seq<nat>, limit: nat)
    requires Placed(live, addrs, stride, homes) && forall j :: 0 <= j < |live| ==> live[j].start + live[j].size <= limit
    ensures forall i :: 0 <= i < |addrs| ==> addrs[i] + stride <= limit
  {
  }

  lemma SameAt(before: seq<byte>, after: seq<byte>, addrs: seq<nat>, stride: nat, i: nat)
    requires SameMessages(before, after, addrs, stride) && i < |addrs|
    ensures Bytes(after, addrs[i], stride) == Bytes(before, addrs[i], stride)
  {
  }

  /** The slice of a list, of messages or of addresses. */
  lemma SlotStays(live: seq<Region>, more: seq<Region>, touched: nat, before: seq<byte>, after: seq<byte>, l: List)
    requires l.Ok(live, before) && Steady(live, more, touched, before, after) && (l.raw.ptr != 0 ==> touched != l.at)
    requires forall j :: 0 <= j < |live| ==> live[j].start + live[j].size <= |before|
    ensures l.Addresses(after) == l.Addresses(before)
    ensures l.Inline() ==> l.InlineOk(more, l.raw) && Clean(after, l.raw, 1)
    ensures l.Outlined() ==> Owns(more, l.at, l.raw, ADDRESS_SIZE)
  {
    hide Owns, Contents, Clean, Steady, Placed, InlineAt;
    if l.raw.ptr != 0 {
      var elem := if l.Inline() then 1 else ADDRESS_SIZE;
      OwnsRegion(live, l.at, l.raw, elem);
      SliceSteady(live, more, touched, before, after, l.at, l.raw, elem);
    }
  }

  // ----- Who uses which region -----

  datatype Owner = OfSlice(i: nat) | OfList(k: nat) | OfBlock(b: nat)

  /** No region is used twice, and all that are used are there. */
  ghost predicate Separate(claims: iset<(Owner, nat)>, n: nat) {
    && (forall x, y :: x in claims && y in claims && x.1 == y.1 ==> x == y)
    && (forall x :: x in claims ==> x.1 < n)
  }

  /** An owner may move to new regions. */
  lemma SeparateMore(claims: iset<(Owner, nat)>, more: iset<(Owner, nat)>, n: nat, n2: nat, o: Owner)
    requires Separate(claims, n) && n <= n2
    requires forall x :: x in more ==> x in claims || (x.0 == o && n <= x.1 < n2)
    ensures Separate(more, n2)
  {
  }

  // ----- The run -----

  class World {
    const a: Arena
    /** The element sizes of the slices, and the lists of messages. */
    const elems: seq<nat>
    const lists: seq<List>
    var slices: seq<Slice>
    /** The live regions of the slices, and of the blocks. */
    ghost var ats: seq<nat>
    ghost var places: seq<nat>

    ghost predicate Uses(m: Model, o: Owner, j: nat)
      reads `slices, `ats, `places, lists
    {
      match o
      case OfSlice(i) => i < |slices| && i < |ats| && slices[i].cap > 0 && ats[i] == j
      case OfList(k) => k < |lists| && j in lists[k].Footprint()
      case OfBlock(b) => b < |places| && b < |m.blocks| && m.blocks[b] != [] && places[b] == j
    }

    ghost function Claims(m: Model): iset<(Owner, nat)>
      reads `slices, `ats, `places, lists
    {
      iset o: Owner, j: nat | Uses(m, o, j) :: (o, j)
    }

    ghost predicate Shape(m: Model)
      reads `slices, `ats, `places
    {
      && |slices| == |elems| == |ats| == |m.slices| && |lists| == |m.lists| && |places| == |m.blocks|
      && (forall k, l :: 0 <= k < l < |lists| ==> lists[k] != lists[l])
    }

    /** Everything but o is in memory as the model says. */
    ghost predicate Rest(m: Model, live: seq<Region>, mem: seq<byte>, o: Owner)
      requires Shape(m)
      reads `slices, `ats, `places, lists
    {
      && (forall i :: 0 <= i < |slices| && o != OfSlice(i) ==>
         SliceOk(live, mem, ats[i], slices[i], elems[i], m.slices[i]))
      && (forall k :: 0 <= k < |lists| && o != OfList(k) ==> ListOk(live, mem, lists[k], m.lists[k]))
      && (forall b :: 0 <= b < |places| && o != OfBlock(b) ==> BlockOk(live, mem, places[b], m.blocks[b]))
    }

    /**
     Every slice, list and block is in memory as the model says, each in live regions of its own. That live regions
     are disjoint, and that what is not handed out is zero, is part of the arena's own invariant.
     */
    ghost predicate Ok(m: Model)
      reads this, a, a.mem, lists
    {
      && a.Valid() && a.mem.Length <= TWO64 && Shape(m)
      && Rest(m, a.live, a.mem[..], OfBlock(|places|)) && Separate(Claims(m), |a.live|)
    }

    /** Before the first operation: nil slices and empty lists. */
    constructor (a: Arena, elems: seq<nat>, lists: seq<List>)
      requires a.Valid() && a.mem.Length <= TWO64 && forall i :: 0 <= i < |elems| ==> elems[i] > 0
      requires forall k, l :: 0 <= k < l < |lists| ==> lists[k] != lists[l]
      requires forall k :: 0 <= k < |lists| ==> lists[k].Valid(a) && lists[k].raw.ptr == 0
      ensures this.a == a && this.elems == elems && this.lists == lists && Ok(Nothing(elems, |lists|))
    {
      this.a, this.elems, this.lists := a, elems, lists;
      slices := seq(|elems|, _ => Slice(0, 0, 0));
      ats, places := seq(|elems|, _ => 0), [];
      new;
      hide SizeOf, Zero;
      forall k | 0 <= k < |lists|
        ensures ListOk(a.live, a.mem[..], lists[k], []) && lists[k].Footprint() == {}
      {
        assert lists[k].Valid(a);
      }
      assert forall o, j :: !Uses(Nothing(elems, |lists|), o, j);
    }

    /** When the regions of one owner change, the others stay. */
    lemma RestStays(m: Model, live: seq<Region>, before: seq<byte>, touched: nat, o: Owner)
      requires Shape(m) && Rest(m, live, before, o) && Steady(live, a.live, touched, before, a.mem[..])
      requires forall p :: Uses(m, p, touched) ==> p == o
      requires forall j :: 0 <= j < |live| ==> live[j].start + live[j].size <= |before|
      ensures Rest(m, a.live, a.mem[..], o)
      ensures forall k :: 0 <= k < |lists| && o != OfList(k) ==>
              lists[k].Addresses(a.mem[..]) == lists[k].Addresses(before)
    {
      hide SliceOk, ListOk, BlockOk, Steady;
      forall i | 0 <= i < |slices| && o != OfSlice(i)
        ensures SliceOk(a.live, a.mem[..], ats[i], slices[i], elems[i], m.slices[i])
      {
        assert !Uses(m, OfSlice(i), touched);
        SliceStays(live, a.live, touched, before, a.mem[..], ats[i], slices[i], elems[i], m.slices[i]);
      }
      forall k | 0 <= k < |lists| && o != OfList(k)
        ensures ListOk(a.live, a.mem[..], lists[k], m.lists[k])
        ensures lists[k].Addresses(a.mem[..]) == lists[k].Addresses(before)
      {
        assert !Uses(m, OfList(k), touched);
        ListStays(live, a.live, touched, before, a.mem[..], lists[k], m.lists[k]);
      }
      forall b | 0 <= b < |places| && o != OfBlock(b)
        ensures BlockOk(a.live, a.mem[..], places[b], m.blocks[b])
      {
        assert !Uses(m, OfBlock(b), touched);
        BlockStays(live, a.live, touched, before, a.mem[..], places[b], m.blocks[b]);
      }
    }

    lemma RestWithout(m: Model, live: seq<Region>, mem: seq<byte>, o: Owner)
      requires Shape(m) && Rest(m, live, mem, OfBlock(|places|))
      ensures Rest(m, live, mem, o) && forall k :: 0 <= k < |lists| ==> ListOk(live, mem, lists[k], m.lists[k])
    {
      hide SliceOk, ListOk, BlockOk;
    }

    lemma TouchedUsed(m: Model, k: nat)
      requires k < |lists|
      ensures Uses(m, OfList(k), lists[k].Touched(a)) || lists[k].Touched(a) == |a.live|
    {
    }

    lemma Within()
      requires a.Valid()
      ensures forall j :: 0 <= j < |a.live| ==> a.live[j].start + a.live[j].size <= |a.mem[..]|
    {
      hide BlocksOk, LiveOk, Zero;
      forall j | 0 <= j < |a.live|
        ensures a.live[j].start + a.live[j].size <= a.mem.Length
      {
        LiveAt(a.blocks, a.mem.Length, a.live, a.next, j);
      }
    }

    /** The operation cannot be done: the runtime has no memory for it, or a slice would take 4 GiB. */
    predicate Stuck(op: Op, slots: nat, own: nat)
      requires |slices| == |elems| && OpOk(op, elems, |lists|)
      reads `slices, a`next, a`end, a`blocks, a`cap, lists
    {
      match op
      case Alloc(size) => !Placeable(a, size, own)
      case Message(size, _) => !Placeable(a, size, own)
      case Make(i, n) => !Ready(a, SizeOf(elems[i], n), slots)
      case Append(i, count, _) =>
        slices[i].len + count > slices[i].cap && !Ready(a, SizeOf(elems[i], slices[i].cap + count), slots)
      case Grow(i, n) => !Ready(a, SizeOf(elems[i], slices[i].cap + n), slots)
      case Add(k, _) => !Placeable(a, lists[k].stride, own) || !Ready(a, lists[k].Need(), slots)
    }

    /** A block with the given bytes has been handed out, in the last region. */
    ghost method AddBlock(m: Model, live: seq<Region>, before: seq<byte>, data: seq<byte>)
      requires Shape(m) && Rest(m, live, before, OfBlock(|places|)) && Separate(Claims(m), |live|)
      requires a.Valid() && a.mem.Length <= TWO64 && Kept(live, before, a.mem[..]) && live <= a.live
      requires forall j :: 0 <= j < |live| ==> live[j].start + live[j].size <= |before|
      requires BlockOk(a.live, a.mem[..], |live|, data)
      modifies this`places
      ensures Ok(m.(blocks := m.blocks + [data]))
      ensures forall k :: 0 <= k < |lists| ==> lists[k].Addresses(a.mem[..]) == lists[k].Addresses(before)
    {
      hide SliceOk, ListOk, BlockOk, Arena.Valid, Steady, Kept, Separate;
      ghost var claims, n := Claims(m), |places|;
      SteadyAdds(live, a.live, |live|, before, a.mem[..]);
      Unclaimed(m, |live|);
      RestStays(m, live, before, |live|, OfBlock(n));
      places := places + [|live|];
      var m1 := m.(blocks := m.blocks + [data]);
      EmptyBlock(a.live, a.mem[..], |live|, data);
      forall x | x in Claims(m1)
        ensures x in claims || (x.0 == OfBlock(n) && |live| <= x.1 < |a.live|)
      {
      }
      SeparateMore(claims, Claims(m1), |live|, |a.live|, OfBlock(n));
    }

    lemma Unclaimed(m: Model, n: nat)
      requires Separate(Claims(m), n)
      ensures forall o :: !Uses(m, o, n)
    {
      forall o
        ensures !Uses(m, o, n)
      {
        assert Uses(m, o, n) ==> (o, n) in Claims(m);
      }
    }

    /** Alloc. */
    method DoAlloc(ghost m: Model, size: nat, own: nat)
      requires Ok(m) && Placeable(a, size, own)
      modifies this`places, a, a.mem
      ensures Ok(Apply(m, Op.Alloc(size), elems))
      ensures forall k :: 0 <= k < |lists| ==> lists[k].Addresses(a.mem[..]) == old(lists[k].Addresses(a.mem[..]))
    {
      hide SliceOk, ListOk, BlockOk, BlocksOk, LiveOk, Steady, Kept, Separate, CanPlace, Zero;
      ghost var live, before := a.live, a.mem[..];
      Within();
      var p := a.Alloc(size, own);
      ZeroBytes(a.mem[..], p, RoundUp(size));
      NewBlockOk(a.live, a.mem[..], |live|, Zeros(RoundUp(size)));
      AddBlock(m, live, before, Zeros(RoundUp(size)));
    }

    /** AllocMessage. */
    method DoMessage(ghost m: Model, size: nat, header: seq<byte>, own: nat)
      requires Ok(m) && size % ALIGN == 0 && 0 < |header| <= size && Placeable(a, size, own)
      modifies this`places, a, a.mem
      ensures Ok(Apply(m, Op.Message(size, header), elems))
      ensures forall k :: 0 <= k < |lists| ==> lists[k].Addresses(a.mem[..]) == old(lists[k].Addresses(a.mem[..]))
    {
      hide SliceOk, ListOk, BlockOk, BlocksOk, LiveOk, Steady, Kept, Separate, CanPlace, Zero;
      ghost var live, before := a.live, a.mem[..];
      Within();
      var p := a.AllocMessage(size, header, own);
      ZeroEnds(a.mem[..], p + |header|, p + size);
      HeaderBytes(a.mem[..], p, header, size);
      NewBlockOk(a.live, a.mem[..], |live|, header + Zeros(size - |header|));
      AddBlock(m, live, before, header + Zeros(size - |header|));
    }

    /** The region that slice i may change: its own, or none. */
    ghost function Touched(i: nat): nat
      requires i < |slices| && i < |ats|
      reads `slices, `ats, a`live
    {
      if slices[i].cap > 0 then ats[i] else |a.live|
    }

    /** Slice i has become r, which holds the given bytes in its old region or in a new one. */
    method SetSlice(ghost m: Model, ghost live: seq<Region>, ghost before: seq<byte>, i: nat, r: Slice, ghost rt: nat,
                    ghost touched: nat, ghost data: seq<byte>)
      requires Shape(m) && i < |slices| && Rest(m, live, before, OfSlice(i)) && Separate(Claims(m), |live|)
      requires a.Valid() && a.mem.Length <= TWO64 && Steady(live, a.live, touched, before, a.mem[..])
      requires forall j :: 0 <= j < |live| ==> live[j].start + live[j].size <= |before|
      requires (slices[i].cap > 0 && touched == ats[i]) || touched == |live|
      requires SliceOk(a.live, a.mem[..], rt, r, elems[i], data)
      requires r.cap > 0 ==> |live| <= rt < |a.live| || (slices[i].cap > 0 && rt == ats[i])
      modifies this`slices, this`ats
      ensures Ok(m.(slices := m.slices[i := data]))
      ensures forall k :: 0 <= k < |lists| ==> lists[k].Addresses(a.mem[..]) == lists[k].Addresses(before)
    {
      hide SliceOk, ListOk, BlockOk, Arena.Valid, Steady, Separate;
      ghost var claims, m1 := Claims(m), m.(slices := m.slices[i := data]);
      SteadySize(live, a.live, touched, before, a.mem[..]);
      Claimed(m, touched, OfSlice(i), |live|);
      RestStays(m, live, before, touched, OfSlice(i));
      slices := slices[i := r];
      ats := ats[i := rt];
      forall x | x in Claims(m1)
        ensures x in claims || (x.0 == OfSlice(i) && |live| <= x.1 < |a.live|)
      {
      }
      SeparateMore(claims, Claims(m1), |live|, |a.live|, OfSlice(i));
    }

    /** A region that o uses, or one that nobody uses, is used by nobody else. */
    lemma Claimed(m: Model, j: nat, o: Owner, n: nat)
      requires Separate(Claims(m), n) && (Uses(m, o, j) || j >= n)
      ensures forall p :: Uses(m, p, j) ==> p == o
    {
      forall p | Uses(m, p, j)
        ensures p == o
      {
        assert (p, j) in Claims(m);
        assert Uses(m, o, j) ==> (o, j) in Claims(m);
      }
    }

    /** Make, in place of slice i. */
    method DoMake(ghost m: Model, i: nat, n: nat, slots: nat)
      requires Ok(m) && i < |elems| && Ready(a, SizeOf(elems[i], n), slots)
      modifies this`slices, this`ats, a, a.mem
      ensures Ok(Apply(m, Op.Make(i, n), elems))
      ensures forall k :: 0 <= k < |lists| ==> lists[k].Addresses(a.mem[..]) == old(lists[k].Addresses(a.mem[..]))
    {
      hide SliceOk, ListOk, BlockOk, Arena.Valid, Steady, Kept, Separate, Zero, SizeOf, Placeable;
      ghost var live, before := a.live, a.mem[..];
      Within();
      ElemAt(m, i);
      var s, at := ArenaSlice.Make(a, elems[i], n, slots);
      SteadyAdds(live, a.live, |live|, before, a.mem[..]);
      MadeOk(a, at, s, elems[i], n);
      SetSlice(m, live, before, i, s, at, |live|, Zeros(Span(elems[i], n)));
    }

    lemma ElemAt(m: Model, i: nat)
      requires Ok(m) && i < |elems|
      ensures elems[i] > 0 && SliceOk(a.live, a.mem[..], ats[i], slices[i], elems[i], m.slices[i])
    {
      hide Arena.Valid, Separate;
    }

    /** Append to slice i. */
    method DoAppend(ghost m: Model, i: nat, count: nat, data: seq<byte>, slots: nat)
      requires Ok(m) && i < |elems| && |data| == Span(elems[i], count)
      requires slices[i].len + count > slices[i].cap ==> Ready(a, SizeOf(elems[i], slices[i].cap + count), slots)
      modifies this`slices, this`ats, a, a.mem
      ensures Ok(Apply(m, Op.Append(i, count, data), elems))
      ensures forall k :: 0 <= k < |lists| ==> lists[k].Addresses(a.mem[..]) == old(lists[k].Addresses(a.mem[..]))
    {
      hide ListOk, BlockOk, Arena.Valid, Steady, Separate, Zero, SizeOf, Ready, Contents, Clean;
      ghost var live, before, at := a.live, a.mem[..], Touched(i);
      Within();
      ElemAt(m, i);
      var r, rt := ArenaSlice.Append(a, elems[i], slices[i], data, count, slots, at);
      NewSliceOk(a, rt, r, elems[i]);
      SetSlice(m, live, before, i, r, rt, at, m.slices[i] + data);
    }

    /** Grow of slice i. */
    method DoGrow(ghost m: Model, i: nat, n: nat, slots: nat)
      requires Ok(m) && i < |elems| && Ready(a, SizeOf(elems[i], slices[i].cap + n), slots)
      modifies this`slices, this`ats, a, a.mem
      ensures Ok(Apply(m, Op.Grow(i, n), elems))
      ensures forall k :: 0 <= k < |lists| ==> lists[k].Addresses(a.mem[..]) == old(lists[k].Addresses(a.mem[..]))
    {
      hide ListOk, BlockOk, Arena.Valid, Steady, Separate, Zero, SizeOf, Ready, Contents, Clean;
      ghost var live, before, at := a.live, a.mem[..], Touched(i);
      Within();
      ElemAt(m, i);
      var r, rt := GrowRoom(a, elems[i], slices[i], n, slots, at);
      NewSliceOk(a, rt, r, elems[i]);
      SetSlice(m, live, before, i, r, rt, at, m.slices[i]);
      assert m.(slices := m.slices[i := m.slices[i]]) == m;
    }

    /** One more message in list k; false if there is no memory for it. */
    method DoAdd(ghost m: Model, k: nat, header: seq<byte>, slots: nat, own: nat) returns (ok: bool)
      requires Ok(m) && k < |lists| && |header| == HEADER
      modifies lists[k], a, a.mem
      ensures ok ==> Ok(Apply(m, Op.Add(k, header), elems))
      ensures !ok ==> Ok(m) && (!Placeable(a, lists[k].stride, own) || !Ready(a, lists[k].Need(), slots))
      ensures forall l :: 0 <= l < |lists| ==> old(lists[l].Addresses(a.mem[..])) <= lists[l].Addresses(a.mem[..])
    {
      hide SliceOk, BlockOk, Arena.Valid, Steady, Separate, IsNew, SameMessages, List.Ok, Ready, Placeable, ListOk,
           List.Footprint, List.Addresses, List.Need, List.Inline;
      ghost var live, before, l, headers := a.live, a.mem[..], lists[k], m.lists[k];
      ghost var claims, touched, addrs := Claims(m), l.Touched(a), l.Addresses(a.mem[..]);
      Within();
      RestWithout(m, live, before, OfList(k));
      ListFacts(live, before, l, headers);
      TouchedUsed(m, k);
      Claimed(m, touched, OfList(k), |live|);
      assert forall o :: (o, touched) in claims ==> o == OfList(k);
      var p: nat;
      ok, p := lists[k].Alloc(a, header, slots, own);
      SteadySize(live, a.live, touched, before, a.mem[..]);
      assert forall o :: Uses(m, o, touched) ==> o == OfList(k) || (o, touched) in claims;
      forall l | 0 <= l < |lists| && l != k
        ensures ListOk(live, before, lists[l], m.lists[l])
      {
        assert lists[l] != lists[k] && old(ListOk(live, before, lists[l], m.lists[l]));
      }
      RestStays(m, live, before, touched, OfList(k));
      if ok {
        MoreMessages(before, a.mem[..], addrs, headers, p, header, l.stride);
        ListOkNow(a.live, a.mem[..], l, headers + [header]);
        AddDone(m, live, claims, k, headers + [header]);
      } else {
        StillNew(before, a.mem[..], addrs, headers, l.stride);
        ListOkNow(a.live, a.mem[..], l, headers);
        AddDone(m, live, claims, k, headers);
        assert m.(lists := m.lists[k := headers]) == m;
      }
    }

    /** One operation; false if it cannot be done. */
    method Do(ghost m: Model, op: Op, slots: nat, own: nat) returns (ok: bool)
      requires Ok(m) && OpOk(op, elems, |lists|)
      modifies this`slices, this`ats, this`places, a, a.mem, lists
      ensures ok ==> Ok(Apply(m, op, elems))
      ensures !ok ==> Ok(m) && Stuck(op, slots, own)
      ensures forall k :: 0 <= k < |lists| ==> old(lists[k].Addresses(a.mem[..])) <= lists[k].Addresses(a.mem[..])
    {
      hide Ok, List.Addresses, Placeable, Ready, List.Need, SizeOf, Span;
      Shaped(m);
      match op
      case Add(k, header) =>
        ok := DoAdd(m, k, header, slots, own);
      case _ =>
        ok := !Stuck(op, slots, own);
        if ok {
          DoOther(m, op, slots, own);
        }
    }

    /** Any operation on blocks and slices. */
    method DoOther(ghost m: Model, op: Op, slots: nat, own: nat)
      requires Ok(m) && |slices| == |elems| && OpOk(op, elems, |lists|) && !op.Add? && !Stuck(op, slots, own)
      modifies this`slices, this`ats, this`places, a, a.mem
      ensures |m.slices| == |elems| && |m.lists| == |lists| && Ok(Apply(m, op, elems))
      ensures forall k :: 0 <= k < |lists| ==> lists[k].Addresses(a.mem[..]) == old(lists[k].Addresses(a.mem[..]))
    {
      hide Ok, List.Addresses, Placeable, Ready, List.Need, SizeOf, Span;
      Shaped(m);
      match op
      case Alloc(size) => DoAlloc(m, size, own);
      case Message(size, header) => DoMessage(m, size, header, own);
      case Make(i, n) => DoMake(m, i, n, slots);
      case Append(i, count, data) => DoAppend(m, i, count, data, slots);
      case Grow(i, n) => DoGrow(m, i, n, slots);
    }

    lemma Shaped(m: Model)
      requires Ok(m)
      ensures |slices| == |elems| == |m.slices| && |m.lists| == |lists|
    {
      hide Arena.Valid, Rest, Separate;
    }

    /**
     Any run of operations, up to one that cannot be done: every slice holds all that was appended to it, every list
     its messages, where they were put, and every block its bytes, each in live regions of its own.
     */
    method Run(ghost m: Model, ops: seq<Op>, slots: seq<nat>, own: seq<nat>) returns (done: nat)
      requires Ok(m) && |slots| == |own| == |ops| && forall i :: 0 <= i < |ops| ==> OpOk(ops[i], elems, |lists|)
      modifies this`slices, this`ats, this`places, a, a.mem, lists
      ensures done <= |ops| && |m.slices| == |elems| == |slices| && |m.lists| == |lists|
      ensures Ok(ApplyAll(m, ops[..done], elems))
      ensures done < |ops| ==> Stuck(ops[done], slots[done], own[done])
      ensures forall k :: 0 <= k < |lists| ==> old(lists[k].Addresses(a.mem[..])) <= lists[k].Addresses(a.mem[..])
    {
      hide Ok, List.Addresses, Placeable, Ready, List.Need, SizeOf, Span, OpOk, Apply, Stuck;
      Shaped(m);
      done := 0;
      assert ops[..0] == [];
      while done < |ops|
        invariant done <= |ops| && Ok(ApplyAll(m, ops[..done], elems))
        invariant forall k :: 0 <= k < |lists| ==> old(lists[k].Addresses(a.mem[..])) <= lists[k].Addresses(a.mem[..])
        decreases |ops| - done
      {
        ghost var now := ApplyAll(m, ops[..done], elems);
        Shaped(now);
        assert ops[..done + 1][..done] == ops[..done];
        var ok := Do(now, ops[done], slots[done], own[done]);
        if !ok {
          Shaped(now);
          return;
        }
        done := done + 1;
      }
      Shaped(ApplyAll(m, ops[..done], elems));
    }

    /**
     The regions of different slices, lists and blocks do not overlap, and lie outside what is still to be handed out.
     */
    lemma RegionsApart(m: Model, o: Owner, p: Owner, i: nat, j: nat)
      requires Ok(m) && Uses(m, o, i) && Uses(m, p, j) && o != p
      ensures i < |a.live| && j < |a.live| && i != j && (A.Apart(a.live[i], a.live[j]) || A.Apart(a.live[j], a.live[i]))
      ensures a.live[i].start + a.live[i].size <= a.next || a.end <= a.live[i].start
    {
      hide Arena.Valid, Rest;
      assert (o, i) in Claims(m) && (p, j) in Claims(m);
      LiveApart(i, j);
      RegionBefore(a, i);
    }

    lemma LiveApart(i: nat, j: nat)
      requires a.Valid() && i < |a.live| && j < |a.live| && i != j
      ensures A.Apart(a.live[i], a.live[j])
    {
      hide BlocksOk, LiveOk;
      LiveAt(a.blocks, a.mem.Length, a.live, a.next, i);
    }

    /** List k has changed and holds messages with the given headers, in its old regions or in new ones. */
    lemma AddDone(m: Model, live: seq<Region>, claims: iset<(Owner, nat)>, k: nat, headers: seq<seq<byte>>)
      requires Shape(m) && k < |lists| && a.Valid() && a.mem.Length <= TWO64 && |live| <= |a.live|
      requires Rest(m, a.live, a.mem[..], OfList(k)) && ListOk(a.live, a.mem[..], lists[k], headers)
      requires Separate(claims, |live|)
      requires forall o, j: nat :: Uses(m, o, j) && o != OfList(k) ==> (o, j) in claims
      requires forall j: nat :: j in lists[k].Footprint() ==> (OfList(k), j) in claims || j >= |live|
      ensures Ok(m.(lists := m.lists[k := headers]))
    {
      hide SliceOk, ListOk, BlockOk, Arena.Valid, Separate, List.Footprint;
      var m1 := m.(lists := m.lists[k := headers]);
      ListFacts(a.live, a.mem[..], lists[k], headers);
      forall x | x in Claims(m1)
        ensures x in claims || (x.0 == OfList(k) && |live| <= x.1 < |a.live|)
      {
        assert Uses(m, x.0, x.1);
      }
      SeparateMore(claims, Claims(m1), |live|, |a.live|, OfList(k));
    }
  }

  /** What follows of a list from its being in order. */
  lemma ListFacts(live: seq<Region>, mem: seq<byte>, l: List, headers: seq<seq<byte>>)
    requires ListOk(live, mem, l, headers)
    ensures l.Ok(live, mem) && |l.Addresses(mem)| == |headers| && forall j :: j in l.Footprint() ==> j < |live|
    ensures forall i :: 0 <= i < |headers| ==> IsNew(mem, l.Addresses(mem)[i], headers[i], l.stride)
    ensures (forall j :: 0 <= j < |live| ==> live[j].start + live[j].size <= |mem|) ==>
              forall i :: 0 <= i < |headers| ==> l.Addresses(mem)[i] + l.stride <= |mem|
  {
    hide IsNew, Clean, SizeOf, InlineAt;
  }

  lemma ListOkNow(live: seq<Region>, mem: seq<byte>, l: List, headers: seq<seq<byte>>)
    requires l.Ok(live, mem) && |l.Addresses(mem)| == |headers|
    requires forall i :: 0 <= i < |headers| ==> IsNew(mem, l.Addresses(mem)[i], headers[i], l.stride)
    ensures ListOk(live, mem, l, headers)
  {
  }

  lemma StillNew(before: seq<byte>, after: seq<byte>, addrs: seq<nat>, headers: seq<seq<byte>>, stride: nat)
    requires |addrs| == |headers| && SameMessages(before, after, addrs, stride)
    requires forall i :: 0 <= i < |addrs| ==>
             IsNew(before, addrs[i], headers[i], stride) && addrs[i] + stride <= |before| == |after|
    ensures forall i :: 0 <= i < |addrs| ==> IsNew(after, addrs[i], headers[i], stride)
  {
    hide IsNew, Bytes;
    forall i | 0 <= i < |addrs|
      ensures IsNew(after, addrs[i], headers[i], stride)
    {
      NewStays(before, after, addrs[i], headers[i], stride);
    }
  }

  lemma MoreMessages(before: seq<byte>, after: seq<byte>, addrs: seq<nat>, headers: seq<seq<byte>>, p: nat,
                     header: seq<byte>, stride: nat)
    requires |addrs| == |headers| && SameMessages(before, after, addrs, stride) && IsNew(after, p, header, stride)
    requires forall i :: 0 <= i < |addrs| ==>
             IsNew(before, addrs[i], headers[i], stride) && addrs[i] + stride <= |before| == |after|
    ensures forall i :: 0 <= i < |addrs| + 1 ==> IsNew(after, (addrs + [p])[i], (headers + [header])[i], stride)
  {
    hide IsNew, SameMessages;
    StillNew(before, after, addrs, headers, stride);
  }

  lemma NewSliceOk(a: Arena, at: nat, s: Slice, elem: nat)
    requires a.Valid() && elem > 0 && Owns(a.live, at, s, elem)
    ensures s.cap > 0 ==> s.ptr > 0 && at < |a.live| && a.live[at].start + a.live[at].size <= |a.mem[..]|
  {
    hide BlocksOk, LiveOk, Zero, SizeOf;
    if s.cap > 0 {
      OwnsAddress(a, at, s, elem);
      LiveAt(a.blocks, a.mem.Length, a.live, a.next, at);
    }
  }

  /** A slice that has just been made. */
  lemma MadeOk(a: Arena, at: nat, s: Slice, elem: nat, n: nat)
    requires a.Valid() && elem > 0 && Owns(a.live, at, s, elem) && s.len == n && s.cap == SizeOf(elem, n) / elem
    requires SizeOf(elem, n) < TWO32
    requires s.ptr + SizeOf(elem, n) <= a.mem.Length && Zero(a.mem[..], s.ptr, s.ptr + SizeOf(elem, n))
    ensures SliceOk(a.live, a.mem[..], at, s, elem, Zeros(Span(elem, n)))
  {
    hide SuggestSize, Arena.Valid, Span;
    NewSliceOk(a, at, s, elem);
    SizeFacts(elem, n);
    BelowSize(SizeOf(elem, n), elem);
    SpanZero(elem);
    NoneFit(elem);
    if n > 0 {
      ZeroBytes(a.mem[..], s.ptr, Span(elem, n));
    }
  }

  lemma NewBlockOk(live: seq<Region>, mem: seq<byte>, at: nat, data: seq<byte>)
    requires data != [] ==> at < |live| && live[at].size == |data| && live[at].start + |data| <= |mem|
                            && mem[live[at].start..live[at].start + |data|] == data
    ensures BlockOk(live, mem, at, data)
  {
  }

  lemma EmptyBlock(live: seq<Region>, mem: seq<byte>, at: nat, data: seq<byte>)
    requires BlockOk(live, mem, at, data)
    ensures data != [] ==> at < |live|
  {
  }

  lemma ZeroBytes(mem: seq<byte>, p: nat, n: nat)
    requires Zero(mem, p, p + n)
    ensures p + n <= |mem| && mem[p..p + n] == Zeros(n)
  {
  }

  lemma HeaderBytes(mem: seq<byte>, p: nat, header: seq<byte>, size: nat)
    requires |header| <= size && p + |header| <= |mem| && mem[p..p + |header|] == header
    requires Zero(mem, p + |header|, p + size)
    ensures p + size <= |mem| && mem[p..p + size] == header + Zeros(size - |header|)
  {
    assert mem[p..p + size] == mem[p..p + |header|] + mem[p + |header|..p + size];
    assert mem[p + |header|..p + size] == Zeros(size - |header|);
  }
}
