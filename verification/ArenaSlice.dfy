/** Growable slices on an arena (internal/arena/slice/slice.go). */
module ArenaSlice {
  import opened A = Arena
  import opened ArenaSize
  import opened Bits
  import opened Words

  /** A slice's address, 0 for nil, and its length and capacity in elements. */
  datatype Slice = Slice(ptr: nat, len: nat, cap: nat)

  function Span(elem: nat, n: nat): nat {
    elem * n
  }

  /** The size of n elements: sliceLayout. */
  function SizeOf(elem: nat, n: nat): nat {
    SuggestSize(Span(elem, n))
  }

  /** Region `at` is the slice's memory, as its capacity tells. */
  ghost predicate Owns(live: seq<Region>, at: nat, s: Slice, elem: nat) {
    && s.len <= s.cap
    && (s.cap > 0 ==>
       at < |live| && live[at].start == s.ptr && live[at].size == SizeOf(elem, s.cap)
       && Span(elem, s.cap) <= live[at].size)
  }

  /** The n bytes at p. */
  ghost function Bytes(mem: seq<byte>, p: nat, n: nat): seq<byte> {
    if p + n <= |mem| then mem[p..p + n] else []
  }

  /** The runtime can place a block, should size bytes need one. */
  predicate Placeable(a: Arena, size: nat, base: nat)
    reads a`next, a`end, a`blocks, a`cap
  {
    a.next + RoundUp(size) > a.end ==> CanPlace(a.blocks, a.mem.Length, base, a.GrowLog(RoundUp(size)))
  }

  /** The same, for a slice that stays below 4 GiB, as its capacity is a 32-bit word. */
  predicate Ready(a: Arena, size: nat, base: nat)
    reads a`next, a`end, a`blocks, a`cap
  {
    size < TWO32 && Placeable(a, size, base)
  }

  lemma SizeFacts(elem: nat, n: nat)
    requires elem > 0
    ensures SizeOf(elem, n) % ALIGN == 0 && Span(elem, n) <= SizeOf(elem, n)
    ensures n > 0 ==>
            SizeOf(elem, n) >= 64 && SizeOf(elem, n) / elem >= n
            && SizeOf(elem, SizeOf(elem, n) / elem) == SizeOf(elem, n)
    ensures n > 0 ==> Span(elem, SizeOf(elem, n) / elem) <= SizeOf(elem, n)
    ensures n == 0 ==> SizeOf(elem, n) == 0
  {
    hide Pow2, SuggestLog;
    if n > 0 {
      Product(elem, n);
      SuggestExact(elem * n);
      SizeRecomputed(elem, n);
      Fits(elem, n, SizeOf(elem, n));
    }
  }

  lemma SizeGrows(elem: nat, m: nat, n: nat)
    requires elem > 0 && m <= n
    ensures SizeOf(elem, m) <= SizeOf(elem, n)
  {
    hide Pow2, SuggestLog;
    SizeFacts(elem, m);
    SizeFacts(elem, n);
    Scaled(m, n, elem);
    if m > 0 {
      Product(elem, m);
      SuggestMonotone(elem * m, elem * n);
      if SuggestLog(elem * m) < SuggestLog(elem * n) {
        Pow2Grows(SuggestLog(elem * m), SuggestLog(elem * n));
      }
    }
  }

  lemma NoneFit(elem: nat)
    requires elem > 0
    ensures 0 / elem == 0
  {
  }

  /** Make: a slice of n zero elements. */
  method Make(a: Arena, elem: nat, n: nat, base: nat) returns (s: Slice, ghost at: nat)
    requires a.Valid() && elem > 0 && Placeable(a, SizeOf(elem, n), base)
    modifies a, a.mem
    ensures a.Valid() && Kept(old(a.live), old(a.mem[..]), a.mem[..]) && old(a.live) <= a.live
    ensures s.ptr + SizeOf(elem, n) <= a.mem.Length && Zero(a.mem[..], s.ptr, s.ptr + SizeOf(elem, n))
    ensures SizeOf(elem, n) / elem < TWO32 ==>
            s.len == n && s.cap == SizeOf(elem, n) / elem && Owns(a.live, at, s, elem)
    ensures at == |old(a.live)|
  {
    hide Pow2, SuggestLog, SuggestSize, BlocksOk, LiveOk, CanPlace, Kept, Span, SizeOf, Owns, Zero;
    var cap := SizeOf(elem, n);
    AlignedSize(elem, n);
    at := |a.live|;
    var p := a.Alloc(cap, base);
    ZeroEnds(a.mem[..], p, p + cap);
    s := Slice(p, n % TWO32, cap / elem % TWO32);
    OwnsNew(a.live, at, p, elem, n);
  }

  lemma AlignedSize(elem: nat, n: nat)
    requires elem > 0
    ensures SizeOf(elem, n) % ALIGN == 0
  {
    SizeFacts(elem, n);
  }

  lemma OwnsNew(live: seq<Region>, at: nat, p: nat, elem: nat, n: nat)
    requires elem > 0
    requires SizeOf(elem, n) > 0 ==> at < |live| && live[at].start == p && live[at].size == SizeOf(elem, n)
    ensures SizeOf(elem, n) / elem < TWO32 ==>
              n % TWO32 == n && Owns(live, at, Slice(p, n % TWO32, SizeOf(elem, n) / elem % TWO32), elem)
  {
    hide Pow2, SuggestLog, SuggestSize, Span;
    SizeFacts(elem, n);
    NoneFit(elem);
  }

  /** What live becomes when memory at p is reallocated to q: the region there is extended, or a new one is added. */
  ghost predicate Reallocated(before: seq<Region>, after: seq<Region>, at: nat, rt: nat, p: nat, oldSize: nat, q: nat,
                              newSize: nat, next: nat) {
    && (newSize > 0 ==> rt < |after| && after[rt].start == q && after[rt].size == newSize)
    && (if oldSize > 0 && q == p then
          && at < |before| && rt == at && after == before[at := before[at].(size := newSize)]
          && next == p + oldSize
        else rt == |before| && before <= after && |after| <= |before| + 1)
  }

  /** Extends the most recent region, or adds one at next. */
  method Extend(a: Arena, oldSize: nat, newSize: nat, ghost at: nat) returns (ghost rt: nat)
    requires a.Valid() && a.blocks != [] && oldSize <= newSize && oldSize % ALIGN == 0 && newSize % ALIGN == 0
    requires a.next - oldSize + newSize <= a.end
    requires oldSize > 0 ==> at < |a.live| && a.live[at].start == a.next - oldSize && a.live[at].size == oldSize
    modifies a
    ensures a.Valid() && a.next == old(a.next) - oldSize + newSize
    ensures Reallocated(old(a.live), a.live, at, rt, old(a.next) - oldSize, oldSize, old(a.next) - oldSize, newSize,
            old(a.next))
    ensures Zero(a.mem[..], old(a.next), a.next)
  {
    hide Pow2, BlocksOk, LiveOk, Reallocated;
    rt := if oldSize > 0 then at else |a.live|;
    a.live := Extended(a.blocks, a.mem.Length, a.live, a.next, at, oldSize, newSize);
    a.next := a.next - oldSize + newSize;
  }

  /** The live regions after that. */
  lemma Extended(blocks: seq<nat>, limit: nat, live: seq<Region>, next: nat, at: nat, oldSize: nat, newSize: nat)
    returns (more: seq<Region>)
    requires BlocksOk(blocks, limit) && LiveOk(blocks, live, next) && blocks != []
    requires next % ALIGN == 0 && oldSize <= newSize && oldSize % ALIGN == 0 && newSize % ALIGN == 0
    requires var k := |blocks| - 1;
             blocks[k] <= next <= blocks[k] + Pow2(k) && next - oldSize + newSize <= blocks[k] + Pow2(k)
    requires oldSize > 0 ==> at < |live| && live[at].start == next - oldSize && live[at].size == oldSize
    requires next >= oldSize
    ensures LiveOk(blocks, more, next - oldSize + newSize)
    ensures var rt := if oldSize > 0 then at else |live|;
            Reallocated(live, more, at, rt, next - oldSize, oldSize, next - oldSize, newSize, next)
  {
    hide Pow2, BlocksOk, LiveOk;
    more := live;
    if oldSize > 0 {
      LastRegion(blocks, limit, live, next, at);
      LiveExtends(blocks, limit, live, next, at, newSize);
      more := live[at := live[at].(size := newSize)];
    } else if newSize > 0 {
      LiveAdds(blocks, limit, live, next, newSize);
      more := live + [Region(next, newSize, |blocks| - 1)];
    }
  }

  /** Copies a live region to the start of the last one. */
  method CopyRegion(a: Arena, q: nat, p: nat, n: nat, size: nat, ghost at: nat, ghost rt: nat)
    requires a.Valid() && n > 0 && at < rt == |a.live| - 1 && a.live[at].start == p && a.live[at].size == n
    requires a.live[rt].start == q && a.live[rt].size == size >= n && Zero(a.mem[..], q, q + size) && q + size <= a.next
    modifies a.mem
    ensures a.Valid() && Kept(a.live[..rt], old(a.mem[..]), a.mem[..])
    ensures Bytes(a.mem[..], q, n) == old(Bytes(a.mem[..], p, n)) && q != p
    ensures Zero(a.mem[..], q + n, q + size)
  {
    hide Pow2, BlocksOk, LiveOk, Kept, Zero;
    ghost var before := a.mem[..];
    LiveAt(a.blocks, a.mem.Length, a.live, a.next, rt);
    LiveAt(a.blocks, a.mem.Length, a.live, a.next, at);
    a.Copy(q, p, n);
    KeptOutside(a.live[..rt], before, a.mem[..], q, q + n);
    ZeroKept(before, a.mem[..], q, n, a.next, a.end);
    ZeroKept(before, a.mem[..], q, n, q + n, q + size);
  }

  /** Moves the contents of a region to a new one. */
  method Move(a: Arena, p: nat, oldSize: nat, newSize: nat, base: nat, ghost at: nat) returns (q: nat, ghost rt: nat)
    requires a.Valid() && oldSize <= newSize && newSize % ALIGN == 0
    requires oldSize > 0 ==> at < |a.live| && a.live[at].start == p && a.live[at].size == oldSize
    requires Placeable(a, newSize, base)
    modifies a, a.mem
    ensures a.Valid() && Kept(old(a.live), old(a.mem[..]), a.mem[..])
    ensures rt == |old(a.live)| && old(a.live) <= a.live && |a.live| <= |old(a.live)| + 1 && (oldSize > 0 ==> q != p)
    ensures newSize > 0 ==> rt < |a.live| && a.live[rt].start == q && a.live[rt].size == newSize
    ensures Bytes(a.mem[..], q, oldSize) == old(Bytes(a.mem[..], p, oldSize))
    ensures Zero(a.mem[..], q + oldSize, q + newSize)
  {
    hide Pow2, SuggestLog, SuggestSize, BlocksOk, LiveOk, CanPlace, Kept, Zero, Bytes;
    BytesNone(a.mem[..], p);
    rt := |a.live|;
    ghost var before := a.mem[..];
    q := a.Alloc(newSize, base);
    if oldSize > 0 {
      ghost var mid := a.mem[..];
      assert a.live[..rt] == old(a.live) && a.live[at] == old(a.live)[at];
      LiveAt(a.blocks, a.mem.Length, a.live, a.next, at);
      KeptBytes(old(a.live), before, mid, at);
      CopyRegion(a, q, p, oldSize, newSize, at, rt);
      KeptTrans(old(a.live), old(a.live), before, mid, a.mem[..]);
    } else {
      BytesNone(a.mem[..], q);
    }
  }

  lemma BytesNone(mem: seq<byte>, p: nat)
    ensures Bytes(mem, p, 0) == []
  {
  }

  lemma KeptBytes(live: seq<Region>, before: seq<byte>, after: seq<byte>, i: nat)
    requires Kept(live, before, after) && i < |live| && live[i].start + live[i].size <= |before|
    ensures Bytes(before, live[i].start, live[i].size) == Bytes(after, live[i].start, live[i].size)
  {
    hide Kept;
    KeptAt(live, before, after, i);
    KeptSize(live, before, after);
  }

  lemma KeptSize(live: seq<Region>, before: seq<byte>, after: seq<byte>)
    requires Kept(live, before, after)
    ensures |before| == |after|
  {
  }

  lemma ZeroKept(before: seq<byte>, after: seq<byte>, q: nat, n: nat, lo: nat, hi: nat)
    requires |after| == |before| && forall a :: 0 <= a < |after| && !(q <= a < q + n) ==> after[a] == before[a]
    requires exists l: nat :: l <= lo && Zero(before, l, hi)
    requires q + n <= lo || hi <= q
    ensures Zero(after, lo, hi)
  {
  }

  /**
   The reallocation inside Grow. The most recent region is extended in place if its block has room; otherwise the
   contents move to new memory.
   */
  method Realloc(a: Arena, p: nat, oldSize: nat, newSize: nat, base: nat, ghost at: nat) returns (q: nat, ghost rt: nat)
    requires a.Valid() && p != 0 && oldSize <= newSize && oldSize % ALIGN == 0 && newSize % ALIGN == 0
    requires oldSize > 0 ==> at < |a.live| && a.live[at].start == p && a.live[at].size == oldSize
    requires Placeable(a, newSize, base)
    modifies a, a.mem
    ensures a.Valid() && Kept(old(a.live), old(a.mem[..]), a.mem[..])
    ensures Reallocated(old(a.live), a.live, at, rt, p, oldSize, q, newSize, old(a.next))
    ensures Bytes(a.mem[..], q, oldSize) == old(Bytes(a.mem[..], p, oldSize))
    ensures Zero(a.mem[..], q + oldSize, q + newSize)
  {
    hide Pow2, SuggestLog, SuggestSize, BlocksOk, LiveOk, CanPlace, Kept;
    KeptSame(a.live, a.mem[..]);
    var i := a.next - oldSize;
    if p == i && i + newSize <= a.end {
      rt := Extend(a, oldSize, newSize, at);
      return p, rt;
    }
    if newSize < oldSize {
      return p, at;
    }
    q, rt := Move(a, p, oldSize, newSize, base, at);
  }

  lemma KeptSame(live: seq<Region>, mem: seq<byte>)
    ensures Kept(live, mem, mem)
  {
  }

  // ----- What one slice's changes leave alone -----

  /** Regions other than the one at `at` keep their contents. */
  ghost predicate OthersKept(live: seq<Region>, at: nat, before: seq<byte>, after: seq<byte>) {
    |before| == |after| && forall j :: 0 <= j < |live| && j != at ==> Kept([live[j]], before, after)
  }

  /** No region but the one at `at` has changed, in place, in size or in contents; that one may have grown. */
  ghost predicate Steady(live: seq<Region>, more: seq<Region>, at: nat, before: seq<byte>, after: seq<byte>) {
    && |live| <= |more|
    && (forall j :: 0 <= j < |live| && j != at ==> more[j] == live[j])
    && (at < |live| ==> more[at].start == live[at].start && more[at].size >= live[at].size)
    && OthersKept(live, at, before, after)
  }

  lemma SteadyTrans(live: seq<Region>, live1: seq<Region>, live2: seq<Region>, at: nat, rt: nat, before: seq<byte>,
                    mid: seq<byte>, after: seq<byte>)
    requires Steady(live, live1, at, before, mid) && Steady(live1, live2, rt, mid, after)
    requires rt == at || rt >= |live|
    ensures Steady(live, live2, at, before, after)
  {
    hide Kept;
    forall j | 0 <= j < |live| && j != at
      ensures Kept([live[j]], before, after)
    {
      KeptTrans([live[j]], [live[j]], before, mid, after);
    }
  }

  /** Where everything was kept, and regions were only added, no region has changed. */
  lemma SteadyAdds(live: seq<Region>, more: seq<Region>, at: nat, before: seq<byte>, after: seq<byte>)
    requires Kept(live, before, after) && live <= more
    ensures Steady(live, more, at, before, after)
  {
    hide Kept;
    KeptSize(live, before, after);
    forall j | 0 <= j < |live| && j != at
      ensures Kept([live[j]], before, after)
    {
      KeptOne(live, j, before, after);
    }
  }

  lemma SteadySame(live: seq<Region>, at: nat, mem: seq<byte>)
    ensures Steady(live, live, at, mem, mem)
  {
    KeptSame(live, mem);
    SteadyAdds(live, live, at, mem, mem);
  }

  /** What takes no memory never fails. */
  lemma RoomReady(a: Arena, base: nat)
    requires a.Valid()
    ensures Ready(a, 0, base)
  {
    hide BlocksOk, LiveOk;
  }

  lemma SteadyReallocated(live: seq<Region>, more: seq<Region>, at: nat, rt: nat, p: nat, oldSize: nat, q: nat,
                          newSize: nat, next: nat, before: seq<byte>, after: seq<byte>)
    requires Reallocated(live, more, at, rt, p, oldSize, q, newSize, next) && Kept(live, before, after)
    requires oldSize > 0 ==> at < |live| && live[at].size == oldSize <= newSize
    ensures Steady(live, more, at, before, after) && (rt == at || rt >= |live|)
  {
    hide Kept;
    KeptSize(live, before, after);
    forall j | 0 <= j < |live| && j != at
      ensures Kept([live[j]], before, after)
    {
      KeptOne(live, j, before, after);
    }
  }

  lemma KeptOne(live: seq<Region>, j: nat, before: seq<byte>, after: seq<byte>)
    requires Kept(live, before, after) && j < |live|
    ensures Kept([live[j]], before, after)
  {
    forall a | Covers(live[j], a) && 0 <= a < |before|
      ensures after[a] == before[a]
    {
    }
  }

  /** The bytes of a slice's elements. */
  ghost function Contents(mem: seq<byte>, s: Slice, elem: nat): seq<byte> {
    if s.cap == 0 then [] else Bytes(mem, s.ptr, Span(elem, s.len))
  }

  /** The room after a slice's elements is zero. */
  ghost predicate Clean(mem: seq<byte>, s: Slice, elem: nat) {
    s.cap > 0 ==> Zero(mem, s.ptr + Span(elem, s.len), s.ptr + SizeOf(elem, s.cap))
  }

  /** A slice keeps its memory and its elements when another slice changes. */
  lemma SliceSteady(live: seq<Region>, more: seq<Region>, touched: nat, before: seq<byte>, after: seq<byte>, at: nat,
                    s: Slice, elem: nat)
    requires elem > 0 && Owns(live, at, s, elem) && Steady(live, more, touched, before, after)
    requires s.cap > 0 ==> at != touched
    requires s.cap > 0 ==> live[at].start + live[at].size <= |before|
    ensures Owns(more, at, s, elem) && Contents(after, s, elem) == Contents(before, s, elem)
    ensures Clean(before, s, elem) ==> Clean(after, s, elem)
  {
    hide Kept, SuggestSize, Span;
    if s.cap > 0 {
      KeptAt([live[at]], before, after, 0);
      SizeFacts(elem, s.cap);
      Room(elem, s.len, 0, s.cap);
      SameBytes(before, after, s.ptr, SizeOf(elem, s.cap), Span(elem, s.len));
    }
  }

  lemma SameBytes(before: seq<byte>, after: seq<byte>, p: nat, n: nat, m: nat)
    requires |before| == |after| && p + n <= |before| && before[p..p + n] == after[p..p + n] && m <= n
    ensures Bytes(before, p, m) == Bytes(after, p, m)
    ensures Zero(before, p + m, p + n) ==> Zero(after, p + m, p + n)
  {
    assert before[p..p + n][..m] == before[p..p + m] && after[p..p + n][..m] == after[p..p + m];
    forall a | p <= a < p + n
      ensures before[a] == after[a]
    {
      assert before[a] == before[p..p + n][a - p] && after[a] == after[p..p + n][a - p];
    }
  }

  /**
   Grow: room for n more elements. The elements survive, and so does every other live region. The capacity is right
   exactly if the new size is below 4 GiB.
   */
  method Grow(a: Arena, elem: nat, s: Slice, n: nat, base: nat, ghost at: nat) returns (r: Slice, ghost rt: nat)
    requires a.Valid() && elem > 0 && Owns(a.live, at, s, elem) && (s.ptr == 0 ==> s.cap == 0)
    requires elem * (s.cap + n) <= MAX_SIZE && Placeable(a, SizeOf(elem, s.cap + n), base)
    modifies a, a.mem
    ensures a.Valid() && Kept(old(a.live), old(a.mem[..]), a.mem[..])
    ensures Reallocated(old(a.live), a.live, at, rt, s.ptr, SizeOf(elem, s.cap), r.ptr, SizeOf(elem, s.cap + n),
            old(a.next))
    ensures r.len == s.len
    ensures s.cap + n > 0 ==> (SizeOf(elem, s.cap + n) < TWO32 <==> r.cap == SizeOf(elem, s.cap + n) / elem)
    ensures s.cap + n == 0 ==> r.cap == 0
    ensures SizeOf(elem, s.cap + n) < TWO32 ==> Owns(a.live, rt, r, elem) && r.cap >= s.cap + n
    ensures Bytes(a.mem[..], r.ptr, SizeOf(elem, s.cap)) == old(Bytes(a.mem[..], s.ptr, SizeOf(elem, s.cap)))
    ensures Zero(a.mem[..], r.ptr + SizeOf(elem, s.cap), r.ptr + SizeOf(elem, s.cap + n))
    ensures Steady(old(a.live), a.live, at, old(a.mem[..]), a.mem[..]) && (rt == at || rt >= |old(a.live)|)
    ensures SizeOf(elem, s.cap + n) < TWO32 ==>
              && Contents(a.mem[..], r, elem) == old(Contents(a.mem[..], s, elem))
              && (old(Clean(a.mem[..], s, elem)) ==> Clean(a.mem[..], r, elem))
  {
    hide Pow2, SuggestLog, SuggestSize, BlocksOk, LiveOk, CanPlace, Kept, GrownCap, Zero, Contents, Clean, Steady;
    ghost var before, live := a.mem[..], a.live;
    SpansFit(a, elem, s, at);
    SizeFacts(elem, s.cap);
    SizeFacts(elem, s.cap + n);
    SizeGrows(elem, s.cap, s.cap + n);
    GrownFacts(elem, s.cap + n);
    var oldSize, newSize := SizeOf(elem, s.cap), SizeOf(elem, s.cap + n);
    var p: nat;
    if s.ptr == 0 {
      rt := |a.live|;
      p := a.Alloc(newSize, base);
    } else {
      p, rt := Realloc(a, s.ptr, oldSize, newSize, base, at);
    }
    r := Slice(p, s.len, GrownCap(elem, newSize));
    GrownSteady(live, a.live, at, rt, elem, s, r, n, old(a.next), before, a.mem[..]);
    if newSize < TWO32 {
      GrownContents(before, a.mem[..], elem, s, r, n);
    }
  }

  lemma GrownFacts(elem: nat, n: nat)
    requires elem > 0 && elem * n <= MAX_SIZE
    ensures n > 0 ==> (SizeOf(elem, n) < TWO32 <==> GrownCap(elem, SizeOf(elem, n)) == SizeOf(elem, n) / elem)
    ensures n == 0 ==> GrownCap(elem, SizeOf(elem, n)) == 0
  {
    hide Pow2, SuggestLog, SuggestSize;
    SizeFacts(elem, n);
    if n > 0 {
      GrownCapExact(elem, n);
    } else {
      assert 0 / elem == 0;
    }
  }

  lemma Room(elem: nat, len: nat, count: nat, cap: nat)
    requires len + count <= cap
    ensures Span(elem, len) + Span(elem, count) == Span(elem, len + count) <= Span(elem, cap)
  {
    Distribute(len, count, elem);
    Scaled(len + count, cap, elem);
  }

  lemma SpanZero(elem: nat)
    ensures Span(elem, 0) == 0
  {
  }

  /** Grow, where there is memory and the slice stays below 4 GiB. */
  method GrowRoom(a: Arena, elem: nat, s: Slice, n: nat, base: nat, ghost at: nat) returns (r: Slice, ghost rt: nat)
    requires a.Valid() && elem > 0 && Owns(a.live, at, s, elem) && (s.ptr == 0 ==> s.cap == 0)
    requires Ready(a, SizeOf(elem, s.cap + n), base)
    modifies a, a.mem
    ensures a.Valid() && r.len == s.len && s.cap + n <= r.cap < TWO32 && (r.ptr == 0 ==> r.cap == 0)
    ensures Owns(a.live, rt, r, elem)
    ensures Contents(a.mem[..], r, elem) == old(Contents(a.mem[..], s, elem))
    ensures old(Clean(a.mem[..], s, elem)) ==> Clean(a.mem[..], r, elem)
    ensures Steady(old(a.live), a.live, at, old(a.mem[..]), a.mem[..]) && (rt == at || rt >= |old(a.live)|)
  {
    hide Pow2, SuggestSize, BlocksOk, LiveOk, CanPlace, Kept, Zero, Bytes, Owns, Contents, Clean, Steady, Reallocated;
    SizeFacts(elem, s.cap + n);
    BelowSize(SizeOf(elem, s.cap + n), elem);
    OwnsLen(a.live, at, s, elem);
    GrowFits(elem, s.(len := s.cap), n);
    r, rt := Grow(a, elem, s, n, base, at);
    if r.cap > 0 {
      OwnsAddress(a, rt, r, elem);
    }
  }

  /** Make, and SetLen(0): a slice with room for n elements. */
  method MakeRoom(a: Arena, elem: nat, n: nat, base: nat) returns (s: Slice, ghost at: nat)
    requires a.Valid() && elem > 0 && n > 0 && Ready(a, SizeOf(elem, n), base)
    modifies a, a.mem
    ensures a.Valid() && s.len == 0 && n <= s.cap < TWO32 && s.cap == SizeOf(elem, n) / elem && s.ptr > 0
    ensures Owns(a.live, at, s, elem) && at == |old(a.live)| && Contents(a.mem[..], s, elem) == []
    ensures Clean(a.mem[..], s, elem)
    ensures old(a.live) <= a.live && Kept(old(a.live), old(a.mem[..]), a.mem[..])
  {
    hide Pow2, SuggestSize, BlocksOk, LiveOk, CanPlace, Kept, Zero;
    SizeFacts(elem, n);
    BelowSize(SizeOf(elem, n), elem);
    s, at := Make(a, elem, n, base);
    s := s.(len := 0);
    BytesNone(a.mem[..], s.ptr);
    SpanZero(elem);
    OwnsAddress(a, at, s, elem);
  }

  lemma BelowSize(size: nat, elem: nat)
    requires elem > 0
    ensures size / elem <= size
  {
    if size / elem > 0 {
      Scaled(1, elem, size / elem);
    }
  }

  /** Memory that is owned is not at address zero. */
  lemma OwnsAddress(a: Arena, at: nat, s: Slice, elem: nat)
    requires a.Valid() && Owns(a.live, at, s, elem) && s.cap > 0
    ensures s.ptr > 0
  {
    hide Pow2, SuggestSize;
    assert InBlock(a.blocks, a.next, a.live[at]);
  }

  // ----- Appending -----

  /** Stores elements at the end of a slice that has room for them; no other live region changes. */
  method Fill(a: Arena, elem: nat, s: Slice, data: seq<byte>, count: nat, ghost at: nat) returns (r: Slice)
    requires a.Valid() && elem > 0 && Owns(a.live, at, s, elem) && s.len + count <= s.cap < TWO32
    requires |data| == Span(elem, count)
    modifies a.mem
    ensures a.Valid() && r == s.(len := s.len + count) && Owns(a.live, at, r, elem)
    ensures Contents(a.mem[..], r, elem) == old(Contents(a.mem[..], s, elem)) + data
    ensures old(Clean(a.mem[..], s, elem)) ==> Clean(a.mem[..], r, elem)
    ensures Steady(a.live, a.live, at, old(a.mem[..]), a.mem[..])
  {
    hide Pow2, SuggestSize, BlocksOk, LiveOk, OthersKept, Zero, Span, Bytes;
    BytesNone(a.mem[..], s.ptr);
    SpanZero(elem);
    r := s.(len := (s.len + count) % TWO32);
    if s.cap == 0 {
      assert data == [];
      OthersOutside(a.live, at, a.mem[..], a.mem[..], 0, 0);
      return;
    }
    Room(elem, s.len, count, s.cap);
    ghost var before := a.mem[..];
    LiveAt(a.blocks, a.mem.Length, a.live, a.next, at);
    RegionBefore(a, at);
    var p := s.ptr + Span(elem, s.len);
    a.Store(p, data);
    ZeroKept(before, a.mem[..], p, |data|, a.next, a.end);
    OthersOutside(a.live, at, before, a.mem[..], p, p + |data|);
    FillBytes(before, a.mem[..], s.ptr, Span(elem, s.len), data);
    if Clean(before, s, elem) {
      ZeroKept(before, a.mem[..], p, |data|, p + |data|, s.ptr + SizeOf(elem, s.cap));
    }
  }

  lemma OthersOutside(live: seq<Region>, at: nat, before: seq<byte>, after: seq<byte>, lo: nat, hi: nat)
    requires |before| == |after| && forall a :: 0 <= a < |before| && !(lo <= a < hi) ==> after[a] == before[a]
    requires lo == hi || forall j :: 0 <= j < |live| && j != at ==>
             live[j].start + live[j].size <= lo || hi <= live[j].start
    ensures OthersKept(live, at, before, after)
  {
    hide Kept;
    forall j | 0 <= j < |live| && j != at
      ensures Kept([live[j]], before, after)
    {
      if lo == hi {
        assert before == after;
        KeptSame([live[j]], before);
      } else {
        KeptOutside([live[j]], before, after, lo, hi);
      }
    }
  }

  /** A live region does not reach what is left of the last block. */
  lemma RegionBefore(a: Arena, i: nat)
    requires a.Valid() && i < |a.live|
    ensures a.live[i].start + a.live[i].size <= a.next || a.end <= a.live[i].start
  {
    hide Pow2;
    assert InBlock(a.blocks, a.next, a.live[i]);
    BlocksApart(a.blocks, a.mem.Length, a.live[i].block, |a.blocks| - 1);
  }

  lemma FillBytes(before: seq<byte>, after: seq<byte>, p: nat, n: nat, data: seq<byte>)
    requires |after| == |before| && p + n + |data| <= |before| && after[p + n..p + n + |data|] == data
    requires forall a :: 0 <= a < |after| && !(p + n <= a < p + n + |data|) ==> after[a] == before[a]
    ensures Bytes(after, p, n + |data|) == Bytes(before, p, n) + data
  {
    assert after[p..p + n + |data|] == after[p..p + n] + after[p + n..p + n + |data|];
  }

  /**
   Append: the new elements follow the old ones, wherever the slice moves, and whatever room is left after them stays
   zero. No other live region changes, moves or stops being live, so that any number of slices can be appended to in
   turn. A slice that must grow has to stay below 4 GiB.
   */
  method Append(a: Arena, elem: nat, s: Slice, data: seq<byte>, count: nat, base: nat, ghost at: nat)
    returns (r: Slice, ghost rt: nat)
    requires a.Valid() && elem > 0 && Owns(a.live, at, s, elem) && (s.ptr == 0 ==> s.cap == 0) && s.cap < TWO32
    requires |data| == Span(elem, count)
    requires s.len + count > s.cap ==> Ready(a, SizeOf(elem, s.cap + count), base)
    modifies a, a.mem
    ensures a.Valid() && r.len == s.len + count && Owns(a.live, rt, r, elem) && r.cap < TWO32
    ensures Contents(a.mem[..], r, elem) == old(Contents(a.mem[..], s, elem)) + data
    ensures old(Clean(a.mem[..], s, elem)) ==> Clean(a.mem[..], r, elem)
    ensures Steady(old(a.live), a.live, at, old(a.mem[..]), a.mem[..]) && (rt == at || rt >= |old(a.live)|)
    ensures s.len + count <= s.cap ==> r.ptr == s.ptr && r.cap == s.cap && rt == at && a.live == old(a.live)
  {
    hide Pow2, SuggestSize, BlocksOk, LiveOk, CanPlace, Kept, Zero, Span, Bytes, Owns, Contents, Clean, Steady;
    hide Reallocated;
    OwnsLen(a.live, at, s, elem);
    r, rt := s, at;
    ghost var before, live := a.mem[..], a.live;
    KeptSame(live, before);
    SteadyAdds(live, live, at, before, before);
    if s.cap - s.len < count {
      r, rt := GrowRoom(a, elem, s, count, base, at);
    }
    ghost var mid := a.mem[..];
    ghost var live1 := a.live;
    r := Fill(a, elem, r, data, count, rt);
    SteadyTrans(live, live1, a.live, at, rt, before, mid, a.mem[..]);
  }

  lemma GrownSteady(live: seq<Region>, more: seq<Region>, at: nat, rt: nat, elem: nat, s: Slice, r: Slice, n: nat,
                    next: nat, before: seq<byte>, after: seq<byte>)
    requires elem > 0 && Owns(live, at, s, elem) && Kept(live, before, after)
    requires Reallocated(live, more, at, rt, s.ptr, SizeOf(elem, s.cap), r.ptr, SizeOf(elem, s.cap + n), next)
    ensures Steady(live, more, at, before, after) && (rt == at || rt >= |live|)
  {
    hide SuggestSize, Span, Kept, Reallocated, Steady;
    SizeFacts(elem, s.cap);
    SizeGrows(elem, s.cap, s.cap + n);
    SteadyReallocated(live, more, at, rt, s.ptr, SizeOf(elem, s.cap), r.ptr, SizeOf(elem, s.cap + n), next, before,
      after);
  }

  /** A slice that has grown has its elements, and zeros after them if there were zeros. */
  lemma GrownContents(before: seq<byte>, after: seq<byte>, elem: nat, s: Slice, r: Slice, n: nat)
    requires elem > 0 && s.len <= s.cap && r.len == s.len && r.cap >= s.cap + n
    requires if s.cap + n > 0 then r.cap == SizeOf(elem, s.cap + n) / elem else r.cap == 0
    requires s.cap > 0 ==> s.ptr + SizeOf(elem, s.cap) <= |before|
    requires Bytes(after, r.ptr, SizeOf(elem, s.cap)) == Bytes(before, s.ptr, SizeOf(elem, s.cap))
    requires Zero(after, r.ptr + SizeOf(elem, s.cap), r.ptr + SizeOf(elem, s.cap + n))
    ensures Contents(after, r, elem) == Contents(before, s, elem)
    ensures Clean(before, s, elem) ==> Clean(after, r, elem)
  {
    hide SuggestSize, Span, Bytes, SizeOf, Zero;
    SizeFacts(elem, s.cap);
    SizeFacts(elem, s.cap + n);
    SpanZero(elem);
    BytesNone(after, r.ptr);
    Room(elem, s.len, 0, s.cap);
    ZeroEnds(after, r.ptr + SizeOf(elem, s.cap), r.ptr + SizeOf(elem, s.cap + n));
    SizeGrows(elem, s.cap, s.cap + n);
    BytesPrefix(before, after, s.ptr, r.ptr, SizeOf(elem, s.cap), Span(elem, s.len));
    if s.cap > 0 && Clean(before, s, elem) {
      ZeroCopied(before, after, s.ptr, r.ptr, Span(elem, s.len), SizeOf(elem, s.cap), SizeOf(elem, s.cap + n));
    }
  }

  /** Zeros that were copied are zeros, and so are those after them. */
  lemma ZeroCopied(before: seq<byte>, after: seq<byte>, p: nat, q: nat, m: nat, n: nat, size: nat)
    requires m <= n && p + n <= |before| && q + n <= |after| && Bytes(after, q, n) == Bytes(before, p, n)
    requires Zero(before, p + m, p + n) && Zero(after, q + n, q + size)
    ensures Zero(after, q + m, q + size)
  {
    forall a | q + m <= a < q + n
      ensures after[a] == 0
    {
      assert after[a] == Bytes(after, q, n)[a - q] == Bytes(before, p, n)[a - q] == before[p + (a - q)];
    }
  }

  lemma OwnsLen(live: seq<Region>, at: nat, s: Slice, elem: nat)
    requires Owns(live, at, s, elem)
    ensures s.len <= s.cap
  {
  }

  lemma GrowFits(elem: nat, s: Slice, count: nat)
    requires elem > 0 && SizeOf(elem, s.cap + count) < TWO32
    ensures elem * (s.cap + count) <= MAX_SIZE
  {
    SizeFacts(elem, s.cap + count);
  }

  /** A slice's elements lie in its memory. */
  lemma SpansFit(a: Arena, elem: nat, s: Slice, at: nat)
    requires a.Valid() && elem > 0 && Owns(a.live, at, s, elem)
    ensures Span(elem, s.len) <= SizeOf(elem, s.cap)
    ensures s.cap > 0 ==> s.ptr + SizeOf(elem, s.cap) <= a.mem.Length
    ensures s.cap == 0 ==> SizeOf(elem, s.cap) == 0
  {
    hide Pow2, SuggestSize, BlocksOk, LiveOk, Zero;
    SizeFacts(elem, s.cap);
    Room(elem, s.len, 0, s.cap);
    if s.cap > 0 {
      LiveAt(a.blocks, a.mem.Length, a.live, a.next, at);
    }
  }

  lemma ZeroEnds(mem: seq<byte>, lo: nat, hi: nat)
    requires Zero(mem, lo, hi)
    ensures hi <= |mem|
  {
  }

  lemma BytesPrefix(before: seq<byte>, after: seq<byte>, p: nat, q: nat, n: nat, m: nat)
    requires m <= n && Bytes(after, q, n) == Bytes(before, p, n) && (n > 0 ==> p + n <= |before| && q + n <= |after|)
    ensures Bytes(after, q, m) == Bytes(before, p, m)
  {
    if n > 0 {
      assert Bytes(after, q, m) == Bytes(after, q, n)[..m];
      assert Bytes(before, p, m) == Bytes(before, p, n)[..m];
    }
  }
}
