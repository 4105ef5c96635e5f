/**
 Repeated messages: in place in one slice, then behind pointers (internal/tdp/thunks/repeated_message.go and
 internal/tdp/repeated/messages.go).
 */
module RepeatedMessage {
  import opened A = Arena
  import opened ArenaNumbers
  import opened ArenaSize
  import opened ArenaSlice
  import opened Base128
  import opened Bits
  import opened Wire
  import opened Words

  const HEADER: nat := 16
  const ADDRESS_SIZE: nat := 8

  /** The addresses of the messages of the given size in the len bytes at ptr. */
  function InlineAt(ptr: nat, stride: nat, len: nat): seq<nat>
    decreases len
  {
    if stride == 0 || len < stride then [] else InlineAt(ptr, stride, len - stride) + [ptr + (len - stride)]
  }

  lemma {:induction false} InlineExact(ptr: nat, stride: nat, count: nat)
    requires stride > 0
    ensures |InlineAt(ptr, stride, count * stride)| == count
    ensures forall i :: 0 <= i < count ==> InlineAt(ptr, stride, count * stride)[i] == ptr + i * stride
  {
    if count > 0 {
      InlineExact(ptr, stride, count - 1);
      Distribute(count - 1, 1, stride);
    } else {
      assert 0 * stride == 0;
    }
  }

  lemma InlineGet(ptr: nat, stride: nat, len: nat, n: nat)
    requires stride > 0 && len % stride == 0 && n < len / stride
    ensures n < |InlineAt(ptr, stride, len)| && InlineAt(ptr, stride, len)[n] == ptr + n * stride
  {
    hide InlineAt;
    WholeTimes(len, stride);
    InlineExact(ptr, stride, len / stride);
  }

  lemma WholeTimes(len: nat, stride: nat)
    requires stride > 0 && len % stride == 0
    ensures len == len / stride * stride
  {
  }

  /** The messages lie one after another. */
  lemma {:induction false} InlineBounds(ptr: nat, stride: nat, len: nat)
    requires stride > 0
    ensures forall i :: 0 <= i < |InlineAt(ptr, stride, len)| ==>
              ptr <= InlineAt(ptr, stride, len)[i] && InlineAt(ptr, stride, len)[i] + stride <= ptr + len
    ensures forall i, j :: 0 <= i < j < |InlineAt(ptr, stride, len)| ==>
              InlineAt(ptr, stride, len)[i] + stride <= InlineAt(ptr, stride, len)[j]
    decreases len
  {
    if len >= stride {
      InlineBounds(ptr, stride, len - stride);
    }
  }

  /** As many messages fit in len bytes as the quotient says. */
  lemma {:induction false} InlineCount(ptr: nat, stride: nat, len: nat)
    requires stride > 0
    ensures |InlineAt(ptr, stride, len)| == len / stride
    decreases len
  {
    if len >= stride {
      InlineCount(ptr, stride, len - stride);
      var q, r := (len - stride) / stride, (len - stride) % stride;
      Distribute(q, 1, stride);
      ModUnique(len, q + 1, r, stride);
    } else {
      ModUnique(len, 0, len, stride);
    }
  }

  /** Twice the room of a slice is room for its messages and one more. */
  lemma SpillRoom(len: nat, cap: nat, stride: nat)
    requires 0 < stride <= cap && len <= cap
    ensures len / stride + 1 <= cap / stride * 2
  {
    var n := len / stride;
    assert len == stride * n + len % stride;
    Fits(stride, n, cap);
    Fits(stride, 1, cap);
  }

  /** The given messages of the given size lie in live regions, apart from each other. */
  ghost predicate Placed(live: seq<Region>, addrs: seq<nat>, stride: nat, homes: seq<nat>) {
    && |homes| == |addrs|
    && (forall i :: 0 <= i < |addrs| ==>
          homes[i] < |live| && live[homes[i]].start <= addrs[i]
            && addrs[i] + stride <= live[homes[i]].start + live[homes[i]].size)
    && (forall i, j :: 0 <= i < j < |addrs| ==> addrs[i] + stride <= addrs[j] || addrs[j] + stride <= addrs[i])
  }

  class List {
    /** The size of a message, and how many to make room for at first. */
    const stride: nat
    const preload: nat
    /** Raw and Stride: a byte slice of messages if inlineStride is not zero, and else a slice of addresses. */
    var raw: Slice
    var inlineStride: nat
    /** The live region of the slice, and of every message. */
    ghost var at: nat
    ghost var homes: seq<nat>

    predicate Inline()
      reads `raw, `inlineStride
    {
      raw.ptr != 0 && inlineStride != 0
    }

    predicate Outlined()
      reads `raw, `inlineStride
    {
      raw.ptr != 0 && inlineStride == 0
    }

    /** The messages' addresses, in order. */
    ghost function Addresses(mem: seq<byte>): seq<nat>
      reads `raw, `inlineStride
    {
      if raw.ptr == 0 then []
      else if inlineStride != 0 then InlineAt(raw.ptr, stride, raw.len)
      else Elements(mem, raw, ADDRESS_SIZE)
    }

    /** The list is in order, given the live regions and the memory. */
    ghost predicate Ok(live: seq<Region>, mem: seq<byte>)
      reads this
    {
      && stride >= HEADER && stride % ALIGN == 0
      && Placed(live, Addresses(mem), stride, homes)
      && (raw.ptr == 0 ==> raw == Slice(0, 0, 0) && inlineStride == 0)
      && (Inline() ==> inlineStride == stride && InlineOk(live, raw) && Clean(mem, raw, 1))
      && (Outlined() ==> Owns(live, at, raw, ADDRESS_SIZE) && 0 < raw.cap < TWO32 && at !in homes)
    }

    ghost predicate Valid(a: Arena)
      reads this, a, a.mem
    {
      a.Valid() && a.mem.Length <= TWO64 && Ok(a.live, a.mem[..])
    }

    /** The slice owns its region, holds whole messages, and has room for one at least. */
    ghost predicate InlineOk(live: seq<Region>, s: Slice)
      reads `at
    {
      Owns(live, at, s, 1) && 0 < stride <= s.cap < TWO32 && s.len % stride == 0
    }

    /** The live regions that the list is stored in. */
    ghost function Footprint(): set<nat>
      reads `raw, `at, `homes
    {
      (if raw.ptr == 0 then {} else {at}) + set i | 0 <= i < |homes| :: homes[i]
    }

    /** The only region that adding a message may change. */
    ghost function Touched(a: Arena): nat
      reads `raw, `at, a`live
    {
      if raw.ptr == 0 then |a.live| else at
    }

    /** Len: the number of messages. */
    function Len(): nat
      requires inlineStride != 0 ==> stride > 0
      reads `raw, `inlineStride
    {
      if inlineStride != 0 then raw.len / stride else raw.len
    }

    lemma LenExact(a: Arena)
      requires Valid(a)
      ensures Len() == |Addresses(a.mem[..])|
    {
      hide Elements, Arena.Valid, Placed;
      if Inline() {
        InlineCount(raw.ptr, stride, raw.len);
      } else if Outlined() {
        ElementCount(a, ADDRESS_SIZE, raw, at);
      }
    }

    /** Get: the address of the n-th message. */
    method Get(a: Arena, n: nat) returns (m: nat)
      requires Valid(a) && n < Len()
      ensures n < |Addresses(a.mem[..])| && m == Addresses(a.mem[..])[n]
    {
      hide Elements, Arena.Valid, Placed, InlineAt, Owns;
      LenExact(a);
      if inlineStride != 0 {
        InlineGet(raw.ptr, stride, raw.len, n);
        m := raw.ptr + n * stride;
      } else {
        m := LoadNumber(a, ADDRESS_SIZE, raw, n, at);
      }
    }

    constructor (stride: nat, preload: nat, a: Arena)
      requires a.Valid() && a.mem.Length <= TWO64 && stride >= HEADER && stride % ALIGN == 0
      ensures Valid(a) && Addresses(a.mem[..]) == [] && raw == Slice(0, 0, 0) && this.stride == stride
      ensures this.preload == preload
      ensures Footprint() == {}
    {
      this.stride, this.preload, raw, inlineStride, at, homes := stride, preload, Slice(0, 0, 0), 0, 0, [];
    }

    function Preload(): (n: nat)
      ensures n >= 1
    {
      if preload > 1 then preload else 1
    }

    /** The bytes that the expected messages take. */
    function InlineSize(): nat {
      stride * Preload()
    }

    /** The room of the pointer slice that replaces an inline one. */
    function SpillCap(s: Slice): nat {
      if stride == 0 then 0 else s.cap / stride * 2
    }

    /** The size of the slice that it takes to add a message; 0 if there is room. */
    function Need(): nat
      reads `raw, `inlineStride
    {
      if raw.ptr == 0 then SizeOf(1, InlineSize())
      else if inlineStride != 0 then (if raw.len + stride > raw.cap then SizeOf(ADDRESS_SIZE, SpillCap(raw)) else 0)
      else if raw.len == raw.cap then SizeOf(ADDRESS_SIZE, raw.cap + 1)
      else 0
    }

    /** newInlineRepeatedField: a byte slice with room for the messages that are expected, one at least. */
    method NewInline(a: Arena, base: nat)
      requires Valid(a) && raw.ptr == 0 && Ready(a, Need(), base)
      modifies this`raw, this`inlineStride, this`at, a, a.mem
      ensures Valid(a) && Inline() && raw.len == 0 && homes == old(homes) == [] && Addresses(a.mem[..]) == []
      ensures raw.cap >= InlineSize() && old(a.live) <= a.live && at == |old(a.live)|
      ensures Kept(old(a.live), old(a.mem[..]), a.mem[..])
    {
      hide SuggestSize, SizeOf, Arena.Valid, InlineSize, Kept, Zero, Owns, Contents, Clean, Ready;
      InlineFits();
      var s;
      s, at := MakeRoom(a, 1, InlineSize(), base);
      InlineNone(s.ptr, stride);
      raw, inlineStride := s, stride;
    }

    lemma InlineFits()
      requires stride > 0
      ensures InlineSize() >= stride
    {
      MulBounds(Preload(), stride);
    }

    /** AllocInPlace: the next message of the slice gets its header; its fields are zero already. */
    method AllocInPlace(a: Arena, header: seq<byte>) returns (m: nat)
      requires Valid(a) && Inline() && raw.len + stride <= raw.cap && |header| == HEADER
      modifies this`raw, this`homes, a.mem
      ensures Valid(a) && Inline() && Addresses(a.mem[..]) == old(Addresses(a.mem[..])) + [m]
      ensures homes == old(homes) + [at]
      ensures IsNew(a.mem[..], m, header, stride)
      ensures SameMessages(old(a.mem[..]), a.mem[..], old(Addresses(a.mem[..])), stride)
      ensures Steady(a.live, a.live, at, old(a.mem[..]), a.mem[..])
    {
      hide SuggestSize, Arena.Valid, Owns, Zero, InlineAt, Steady, Clean, IsNew, SameMessages, Elements, Placed;
      var s := raw;
      ghost var before := a.mem[..];
      OwnedRegion(a, s, at);
      m := StoreHeader(a, s, stride, header, at);
      InlineMore(a.live, s, stride, homes, at);
      raw := s.(len := s.len + stride);
      homes := homes + [at];
    }

    /** spillInlineRepeatedField: the messages stay where they are, and a pointer slice takes over. */
    method Spill(a: Arena, base: nat)
      requires Valid(a) && Inline() && raw.len + stride > raw.cap && Ready(a, Need(), base)
      modifies this`raw, this`inlineStride, this`at, a, a.mem
      ensures Valid(a) && Outlined() && Addresses(a.mem[..]) == old(Addresses(a.mem[..])) && raw.len < raw.cap
      ensures old(a.live) <= a.live && at == |old(a.live)| && Kept(old(a.live), old(a.mem[..]), a.mem[..])
    {
      hide SuggestSize, SizeOf, Arena.Valid, Placed, Kept, Zero, Owns, Contents, Clean, Ready, Elements, InlineAt;
      hide Steady, Limit;
      ghost var live, before := a.live, a.mem[..];
      InlineRoom(a, raw, at);
      SpillRoom(raw.len, raw.cap, stride);
      var s, rt := MakeRoom(a, ADDRESS_SIZE, SpillCap(raw), base);
      ghost var mid := a.mem[..];
      s := PointersTo(a, raw, s, rt);
      KeptStays(live, a.live, rt, before, mid, a.mem[..]);
      PlacedAdds(live, a.live, Addresses(before), stride, homes);
      raw, inlineStride, at := s, 0, rt;
    }

    /** The loop of the spill. */
    method PointersTo(a: Arena, s: Slice, ptrs: Slice, ghost rt: nat) returns (r: Slice)
      requires a.Valid() && a.mem.Length <= TWO64 && 0 < stride && s.len <= s.cap && s.len % stride == 0
      requires Owns(a.live, rt, ptrs, ADDRESS_SIZE) && ptrs.len == 0 && ptrs.cap < TWO32
      requires Contents(a.mem[..], ptrs, ADDRESS_SIZE) == []
      requires s.len / stride < ptrs.cap && s.ptr + s.len <= a.mem.Length
      modifies a.mem
      ensures a.Valid() && Owns(a.live, rt, r, ADDRESS_SIZE) && r == ptrs.(len := s.len / stride)
      ensures Elements(a.mem[..], r, ADDRESS_SIZE) == InlineAt(s.ptr, stride, s.len)
      ensures Steady(a.live, a.live, rt, old(a.mem[..]), a.mem[..])
    {
      hide Arena.Valid, Owns, Contents, Elements, InlineAt, Steady, Limit;
      InlineCount(s.ptr, stride, s.len);
      InlineNone(s.ptr, stride);
      NoElements(a.mem[..], ptrs, ADDRESS_SIZE);
      SteadySame(a.live, rt, a.mem[..]);
      r := ptrs;
      var i := 0;
      while i < s.len
        invariant 0 <= i <= s.len && (s.len - i) % stride == 0
        invariant a.Valid() && Owns(a.live, rt, r, ADDRESS_SIZE) && r == ptrs.(len := |InlineAt(s.ptr, stride, i)|)
        invariant Elements(a.mem[..], r, ADDRESS_SIZE) == InlineAt(s.ptr, stride, i)
        invariant Steady(a.live, a.live, rt, old(a.mem[..]), a.mem[..])
        decreases s.len - i
      {
        ghost var mid := a.mem[..];
        WholeMessages(s.ptr, stride, i, s.len);
        AddressFits(s.ptr + i);
        r := StoreNumber(a, ADDRESS_SIZE, r, s.ptr + i, rt);
        SteadyTrans(a.live, a.live, a.live, rt, rt, old(a.mem[..]), mid, a.mem[..]);
        i := i + stride;
      }
    }

    /** AllocMessage, apart from the messages there are. */
    method NewMessage(a: Arena, header: seq<byte>, base: nat, ghost addrs: seq<nat>) returns (m: nat)
      requires a.Valid() && stride >= HEADER && stride % ALIGN == 0 && |header| == HEADER
      requires Placed(a.live, addrs, stride, homes)
      requires Placeable(a, stride, base)
      modifies a, a.mem
      ensures a.Valid() && m + stride <= a.mem.Length && old(a.live) <= a.live && |a.live| == |old(a.live)| + 1
      ensures Placed(a.live, addrs + [m], stride, homes + [|old(a.live)|])
      ensures IsNew(a.mem[..], m, header, stride) && SameMessages(old(a.mem[..]), a.mem[..], addrs, stride)
      ensures Kept(old(a.live), old(a.mem[..]), a.mem[..])
    {
      hide BlocksOk, LiveOk, CanPlace, Kept, Zero, Placed, SameMessages;
      ghost var before, live := a.mem[..], a.live;
      m := a.AllocMessage(stride, header, base);
      ZeroEnds(a.mem[..], m + HEADER, m + stride);
      KeptMessages(live, before, a.mem[..], addrs, stride, homes);
      LiveAt(a.blocks, a.mem.Length, a.live, a.next, |live|);
      PlacedMore(live, a.live, addrs, stride, homes, m);
    }

    /** The address of one more message at the end of the pointer slice, which grows if it is full. */
    method AddPointer(a: Arena, m: nat, slots: nat) returns (s: Slice, ghost rt: nat)
      requires a.Valid() && m < TWO64 && Owns(a.live, at, raw, ADDRESS_SIZE) && 0 < raw.cap < TWO32
      requires raw.len == raw.cap ==> Ready(a, SizeOf(ADDRESS_SIZE, raw.cap + 1), slots)
      modifies a, a.mem
      ensures a.Valid() && Owns(a.live, rt, s, ADDRESS_SIZE) && s.ptr > 0 && 0 < s.cap < TWO32
      ensures Elements(a.mem[..], s, ADDRESS_SIZE) == old(Elements(a.mem[..], raw, ADDRESS_SIZE)) + [m]
      ensures Steady(old(a.live), a.live, at, old(a.mem[..]), a.mem[..]) && (rt == at || rt >= |old(a.live)|)
    {
      hide SuggestSize, SizeOf, Arena.Valid, Contents, Clean, Steady, Limit, Ready;
      ghost var live, before := a.live, a.mem[..];
      OwnsAddress(a, at, raw, ADDRESS_SIZE);
      AddressFits(m);
      s, rt := raw, at;
      SteadySame(live, at, before);
      if s.len == s.cap {
        s, rt := GrowRoom(a, ADDRESS_SIZE, s, 1, slots, at);
      }
      ghost var live1, mid := a.live, a.mem[..];
      s := StoreNumber(a, ADDRESS_SIZE, s, m, rt);
      SteadyTrans(live, live1, a.live, at, rt, before, mid, a.mem[..]);
    }

    /**
     A message of its own on the arena, and its address at the end of the pointer slice. False if there is no memory
     for one or the other; then the list is as it was.
     */
    method AllocOutlined(a: Arena, header: seq<byte>, slots: nat, own: nat) returns (ok: bool, m: nat)
      requires Valid(a) && Outlined() && |header| == HEADER
      modifies this`raw, this`at, this`homes, a, a.mem
      ensures Valid(a) && Outlined() && SameMessages(old(a.mem[..]), a.mem[..], old(Addresses(a.mem[..])), stride)
      ensures Steady(old(a.live), a.live, old(at), old(a.mem[..]), a.mem[..]) && (at == old(at) || at >= |old(a.live)|)
      ensures ok ==> Addresses(a.mem[..]) == old(Addresses(a.mem[..])) + [m] && IsNew(a.mem[..], m, header, stride)
                     && homes == old(homes) + [|old(a.live)|]
      ensures !ok ==> Addresses(a.mem[..]) == old(Addresses(a.mem[..])) && homes == old(homes)
                      && (!Placeable(a, stride, own) || !Ready(a, Need(), slots))
    {
      hide SuggestSize, SizeOf, Arena.Valid, Placed, Kept, IsNew, SameMessages, Contents, Elements, Steady, Ready;
      hide Placeable;
      ghost var live, before, addrs := a.live, a.mem[..], Addresses(a.mem[..]);
      if !Placeable(a, stride, own) {
        NothingMoved(live, at, before, addrs, stride);
        return false, 0;
      }
      SpansFit(a, ADDRESS_SIZE, raw, at);
      m := NewMessage(a, header, own, addrs);
      ghost var live1, mid := a.live, a.mem[..];
      PointersStay(live, live1, before, mid, at, raw);
      SteadyAdds(live, live1, at, before, mid);
      PlacedAdds(live, live1, addrs, stride, homes);
      if raw.len == raw.cap && !Ready(a, SizeOf(ADDRESS_SIZE, raw.cap + 1), slots) {
        return false, 0;
      }
      var s, rt := AddPointer(a, m, slots);
      SteadyTrans(live, live1, a.live, at, at, before, mid, a.mem[..]);
      homes := homes + [|live|];
      MessagesSteady(live1, a.live, at, mid, a.mem[..], addrs + [m], stride, homes);
      SameThrough(before, mid, a.mem[..], addrs, m, header, stride);
      raw, at := s, rt;
      ok := true;
    }

    /**
     allocRepeatedMessage2: one more message. The first ones share a slice; when that is full the list spills, and
     the message that did not fit and all later ones are allocated one by one. No message ever moves or changes, and
     of the regions of the arena only the list's own slice does. False if there is no memory for the message or for
     the slice; then there is no more message.
     */
    method Alloc(a: Arena, header: seq<byte>, slots: nat, own: nat) returns (ok: bool, m: nat)
      requires Valid(a) && |header| == HEADER
      modifies this, a, a.mem
      ensures Valid(a) && SameMessages(old(a.mem[..]), a.mem[..], old(Addresses(a.mem[..])), stride)
      ensures Steady(old(a.live), a.live, old(Touched(a)), old(a.mem[..]), a.mem[..])
      ensures forall j :: j in Footprint() ==> j in old(Footprint()) || j >= |old(a.live)|
      ensures ok ==> Addresses(a.mem[..]) == old(Addresses(a.mem[..])) + [m] && IsNew(a.mem[..], m, header, stride)
      ensures ok ==> Inline() == (old(raw.ptr) == 0 || old(Inline() && raw.len + stride <= raw.cap))
      ensures !ok ==> Addresses(a.mem[..]) == old(Addresses(a.mem[..]))
                      && (!Placeable(a, stride, own) || !Ready(a, Need(), slots))
    {
      hide SuggestSize, SizeOf, Arena.Valid, Placed, Zero, InlineAt, Elements, Ready, Placeable, Kept, Steady, IsNew;
      hide SameMessages, Clean, InlineOk, Owns, Need;
      ghost var live, before, addrs := a.live, a.mem[..], Addresses(a.mem[..]);
      NothingMoved(live, Touched(a), before, addrs, stride);
      if !Outlined() && !(Inline() && raw.len + stride <= raw.cap) && !Ready(a, Need(), slots) {
        return false, 0;
      }
      if raw.ptr == 0 {
        NewInline(a, slots);
        SteadyAdds(live, a.live, |live|, before, a.mem[..]);
        ghost var live1, mid := a.live, a.mem[..];
        m := AllocInPlace(a, header);
        SteadyTrans(live, live1, a.live, |live|, at, before, mid, a.mem[..]);
        NoMessages(before, a.mem[..], stride);
        ok := true;
      } else if inlineStride != 0 && raw.len + stride <= raw.cap {
        m := AllocInPlace(a, header);
        ok := true;
      } else if inlineStride != 0 {
        ghost var touched := at;
        PlacedAdds(live, live, addrs, stride, homes);
        Spill(a, slots);
        ghost var live1, mid := a.live, a.mem[..];
        SteadyAdds(live, live1, touched, before, mid);
        KeptMessages(live, before, mid, addrs, stride, homes);
        ok, m := AllocOutlined(a, header, slots, own);
        SteadyTrans(live, live1, a.live, touched, |live|, before, mid, a.mem[..]);
        SameTrans(before, mid, a.mem[..], addrs, stride);
        if !ok {
          RoomReady(a, slots);
        }
      } else {
        ok, m := AllocOutlined(a, header, slots, own);
      }
    }
  }

  lemma NothingMoved(live: seq<Region>, at: nat, mem: seq<byte>, addrs: seq<nat>, stride: nat)
    ensures Steady(live, live, at, mem, mem) && SameMessages(mem, mem, addrs, stride)
  {
    SteadySame(live, at, mem);
  }

  lemma NoMessages(before: seq<byte>, after: seq<byte>, stride: nat)
    ensures SameMessages(before, after, [], stride)
  {
  }

  lemma SameTrans(before: seq<byte>, mid: seq<byte>, after: seq<byte>, addrs: seq<nat>, stride: nat)
    requires SameMessages(before, mid, addrs, stride) && SameMessages(mid, after, addrs, stride)
    ensures SameMessages(before, after, addrs, stride)
  {
  }

  lemma PointersStay(live: seq<Region>, more: seq<Region>, before: seq<byte>, after: seq<byte>, at: nat, s: Slice)
    requires Owns(live, at, s, ADDRESS_SIZE) && s.cap > 0 && live <= more && Kept(live, before, after)
    requires s.ptr + SizeOf(ADDRESS_SIZE, s.cap) <= |before|
    ensures Owns(more, at, s, ADDRESS_SIZE) && Elements(after, s, ADDRESS_SIZE) == Elements(before, s, ADDRESS_SIZE)
  {
    hide Kept, Contents, Steady, SizeOf, Span;
    SteadyAdds(live, more, |live|, before, after);
    SliceSteady(live, more, |live|, before, after, at, s, ADDRESS_SIZE);
  }

  /** Messages outside the region that changes stay, where they are and as they are. */
  lemma MessagesSteady(live: seq<Region>, more: seq<Region>, at: nat, before: seq<byte>, after: seq<byte>,
                       addrs: seq<nat>, stride: nat, homes: seq<nat>)
    requires Steady(live, more, at, before, after) && Placed(live, addrs, stride, homes) && at !in homes
    ensures Placed(more, addrs, stride, homes) && SameMessages(before, after, addrs, stride)
  {
    hide Kept;
    forall i | 0 <= i < |addrs|
      ensures Bytes(after, addrs[i], stride) == Bytes(before, addrs[i], stride)
    {
      var h := homes[i];
      assert h != at;
      assert Kept([live[h]], before, after);
      KeptMessages([live[h]], before, after, [addrs[i]], stride, [0]);
      assert [addrs[i]][0] == addrs[i];
    }
  }

  /** The messages there were, and the new one, after its address has been stored. */
  lemma SameThrough(before: seq<byte>, mid: seq<byte>, after: seq<byte>, addrs: seq<nat>, m: nat, header: seq<byte>,
                    stride: nat)
    requires SameMessages(before, mid, addrs, stride) && SameMessages(mid, after, addrs + [m], stride)
    requires IsNew(mid, m, header, stride) && m + stride <= |mid| == |after|
    ensures SameMessages(before, after, addrs, stride) && IsNew(after, m, header, stride)
  {
    hide IsNew;
    forall i | 0 <= i < |addrs|
      ensures Bytes(after, addrs[i], stride) == Bytes(before, addrs[i], stride)
    {
      assert (addrs + [m])[i] == addrs[i];
    }
    assert (addrs + [m])[|addrs|] == m;
    NewStays(mid, after, m, header, stride);
  }

  lemma NewStays(before: seq<byte>, after: seq<byte>, m: nat, header: seq<byte>, stride: nat)
    requires IsNew(before, m, header, stride) && m + stride <= |before| == |after|
    requires Bytes(after, m, stride) == Bytes(before, m, stride)
    ensures IsNew(after, m, header, stride)
  {
    forall a | m <= a < m + stride
      ensures after[a] == before[a]
    {
      assert after[a] == Bytes(after, m, stride)[a - m] && before[a] == Bytes(before, m, stride)[a - m];
    }
  }

  lemma AddressFits(p: nat)
    requires p < TWO64
    ensures p < Limit(ADDRESS_SIZE)
  {
    assert Limit(4) == 0x1_0000_0000;
  }

  /** What changes only a new region keeps all others. */
  lemma KeptStays(live: seq<Region>, more: seq<Region>, rt: nat, before: seq<byte>, mid: seq<byte>, after: seq<byte>)
    requires live <= more && rt >= |live| && Kept(live, before, mid) && Steady(more, more, rt, mid, after)
    ensures Kept(live, before, after)
  {
    forall i, p | 0 <= i < |live| && Covers(live[i], p) && 0 <= p < |before|
      ensures after[p] == before[p]
    {
      assert Kept([more[i]], mid, after);
      assert Covers([more[i]][0], p);
    }
  }

  lemma PlacedAdds(live: seq<Region>, more: seq<Region>, addrs: seq<nat>, stride: nat, homes: seq<nat>)
    requires Placed(live, addrs, stride, homes) && live <= more
    ensures Placed(more, addrs, stride, homes) && forall i :: 0 <= i < |homes| ==> homes[i] < |live|
  {
  }

  lemma OwnedRegion(a: Arena, s: Slice, at: nat)
    requires a.Valid() && Owns(a.live, at, s, 1) && s.cap > 0
    ensures at < |a.live| && a.live[at].start == s.ptr && a.live[at].size == SizeOf(1, s.cap) >= s.cap
    ensures s.ptr + SizeOf(1, s.cap) <= a.mem.Length && Span(1, s.len) == s.len
  {
    hide SuggestSize;
    SpansFit(a, 1, s, at);
    SizeFacts(1, s.cap);
    assert Span(1, s.cap) == s.cap;
  }

  /** A header after the messages of an inline slice. */
  method StoreHeader(a: Arena, s: Slice, stride: nat, header: seq<byte>, ghost at: nat) returns (m: nat)
    requires a.Valid() && Owns(a.live, at, s, 1) && Clean(a.mem[..], s, 1) && s.len + stride <= s.cap
    requires 0 < |header| <= stride
    modifies a.mem
    ensures a.Valid() && Owns(a.live, at, s.(len := s.len + stride), 1)
    ensures Clean(a.mem[..], s.(len := s.len + stride), 1)
    ensures m == s.ptr + s.len && IsNew(a.mem[..], m, header, stride)
    ensures SameMessages(old(a.mem[..]), a.mem[..], InlineAt(s.ptr, stride, s.len), stride)
    ensures Steady(a.live, a.live, at, old(a.mem[..]), a.mem[..])
  {
    hide SuggestSize, BlocksOk, LiveOk, Kept, Zero, OthersKept, InlineAt, SizeOf, Clean, IsNew, SameMessages;
    ghost var before := a.mem[..];
    OwnedRegion(a, s, at);
    LiveAt(a.blocks, a.mem.Length, a.live, a.next, at);
    RegionBefore(a, at);
    m := s.ptr + s.len;
    a.Store(m, header);
    InPlaceKeeps(before, a.mem[..], s, stride, m, header);
    ZeroKept(before, a.mem[..], m, |header|, a.next, a.end);
    OthersOutside(a.live, at, before, a.mem[..], m, m + |header|);
  }

  lemma InlineRoom(a: Arena, s: Slice, at: nat)
    requires a.Valid() && Owns(a.live, at, s, 1) && s.cap > 0
    ensures s.len <= s.cap && s.ptr + s.len <= a.mem.Length
  {
    hide SizeOf, Arena.Valid;
    OwnedRegion(a, s, at);
  }

  /** A message with its header and nothing else. */
  ghost predicate IsNew(mem: seq<byte>, m: nat, header: seq<byte>, stride: nat) {
    && Bytes(mem, m, |header|) == header && |header| <= stride
    && Zero(mem, m + |header|, m + stride)
  }

  /** The messages are as they were. */
  ghost predicate SameMessages(before: seq<byte>, after: seq<byte>, addrs: seq<nat>, stride: nat) {
    forall i :: 0 <= i < |addrs| ==> Bytes(after, addrs[i], stride) == Bytes(before, addrs[i], stride)
  }

  lemma KeptMessages(live: seq<Region>, before: seq<byte>, after: seq<byte>, addrs: seq<nat>, stride: nat,
                     homes: seq<nat>)
    requires Kept(live, before, after) && Placed(live, addrs, stride, homes)
    ensures SameMessages(before, after, addrs, stride)
  {
    forall i | 0 <= i < |addrs|
      ensures Bytes(after, addrs[i], stride) == Bytes(before, addrs[i], stride)
    {
      if addrs[i] + stride <= |before| {
        forall a | addrs[i] <= a < addrs[i] + stride
          ensures after[a] == before[a]
        {
          assert Covers(live[homes[i]], a);
        }
      }
    }
  }

  /** A region of its own is apart from all messages. */
  lemma PlacedMore(live: seq<Region>, more: seq<Region>, addrs: seq<nat>, stride: nat, homes: seq<nat>, m: nat)
    requires Placed(live, addrs, stride, homes) && live <= more && |more| == |live| + 1
    requires more[|live|].start == m && more[|live|].size == stride
    requires forall j :: 0 <= j < |live| ==> more[j].start + more[j].size <= m || m + stride <= more[j].start
    ensures Placed(more, addrs + [m], stride, homes + [|live|])
  {
    forall i | 0 <= i < |addrs|
      ensures addrs[i] + stride <= m || m + stride <= addrs[i]
    {
      assert more[homes[i]] == live[homes[i]];
    }
  }

  /** Storing a header past the messages of a slice leaves them alone, and zeros after it. */
  lemma InPlaceKeeps(before: seq<byte>, after: seq<byte>, s: Slice, stride: nat, m: nat, header: seq<byte>)
    requires |after| == |before| && 0 < |header| <= stride && s.len + stride <= s.cap <= SizeOf(1, s.cap)
    requires m == s.ptr + s.len
    requires s.ptr + SizeOf(1, s.cap) <= |before| && Clean(before, s, 1)
    requires after[m..m + |header|] == header
    requires forall a :: 0 <= a < |after| && !(m <= a < m + |header|) ==> after[a] == before[a]
    ensures IsNew(after, m, header, stride) && Clean(after, s.(len := s.len + stride), 1)
    ensures SameMessages(before, after, InlineAt(s.ptr, stride, s.len), stride)
  {
    hide InlineAt, SizeOf;
    InlineBounds(s.ptr, stride, s.len);
    assert Span(1, s.len) == s.len && Span(1, s.len + stride) == s.len + stride;
  }

  lemma InlineMore(live: seq<Region>, s: Slice, stride: nat, homes: seq<nat>, at: nat)
    requires stride > 0 && s.len % stride == 0 && s.len + stride <= s.cap
    requires at < |live| && live[at].start == s.ptr && live[at].size >= s.cap
    requires Placed(live, InlineAt(s.ptr, stride, s.len), stride, homes)
    ensures InlineAt(s.ptr, stride, s.len + stride) == InlineAt(s.ptr, stride, s.len) + [s.ptr + s.len]
    ensures (s.len + stride) % stride == 0
    ensures Placed(live, InlineAt(s.ptr, stride, s.len) + [s.ptr + s.len], stride, homes + [at])
  {
    InlineBounds(s.ptr, stride, s.len);
    ModMultiple(s.len, 1, stride);
  }

  /** A whole number of messages short of len, there is room for one more. */
  lemma WholeMessages(ptr: nat, stride: nat, i: nat, len: nat)
    requires stride > 0 && i < len && (len - i) % stride == 0
    ensures i + stride <= len && (len - (i + stride)) % stride == 0
    ensures InlineAt(ptr, stride, i + stride) == InlineAt(ptr, stride, i) + [ptr + i]
    ensures |InlineAt(ptr, stride, i)| + 1 <= |InlineAt(ptr, stride, len)|
  {
    var q := (len - i) / stride;
    assert len - i == q * stride;
    MulBounds(q, stride);
    ModMultiple(len - (i + stride), 1, stride);
    InlineShorter(ptr, stride, i + stride, len);
  }

  lemma {:induction false} InlineShorter(ptr: nat, stride: nat, i: nat, len: nat)
    requires stride > 0 && i <= len
    ensures |InlineAt(ptr, stride, i)| <= |InlineAt(ptr, stride, len)|
    decreases len
  {
    if i >= stride {
      InlineShorter(ptr, stride, i - stride, len - stride);
    }
  }

  lemma InlineNone(ptr: nat, stride: nat)
    ensures stride > 0 ==> InlineAt(ptr, stride, 0) == []
  {
  }
}
