/** A bump allocator over blocks of doubling size (internal/arena/arena.go, internal/arena/alloc.go). */
module Arena {
  import opened ArenaSize
  import opened Bits
  import opened Words

  /** The pointer back to the arena that follows each block. */
  const TRACE: nat := 8

  /** Memory that was handed out, and the block it is in. */
  datatype Region = Region(start: nat, size: nat, block: nat)

  predicate Covers(r: Region, a: int) {
    r.start <= a < r.start + r.size
  }

  /** Neither chunk, with its trailing pointer, reaches into the other. */
  predicate ChunksApart(p: nat, m: nat, q: nat, n: nat) {
    p + m + TRACE <= q || q + n + TRACE <= p
  }

  /** Blocks, by the logarithm of their size; 0 stands for nil. The last one is never nil. */
  ghost predicate BlocksOk(blocks: seq<nat>, limit: nat) {
    && (blocks != [] ==> blocks[|blocks| - 1] != 0)
    && (forall k :: 0 <= k < |blocks| && blocks[k] != 0 ==>
       k >= 6 && blocks[k] % ALIGN == 0 && blocks[k] + Pow2(k) + TRACE <= limit)
    && (forall j, k :: 0 <= j < k < |blocks| && blocks[j] != 0 && blocks[k] != 0 ==>
       ChunksApart(blocks[j], Pow2(j), blocks[k], Pow2(k)))
  }

  /** A region lies in its block, and before next if that is the last one. */
  ghost predicate InBlock(blocks: seq<nat>, next: nat, r: Region) {
    && r.start % ALIGN == 0 && r.size > 0 && r.size % ALIGN == 0
    && r.block < |blocks| && blocks[r.block] != 0
    && blocks[r.block] <= r.start && r.start + r.size <= blocks[r.block] + Pow2(r.block)
    && (r.block == |blocks| - 1 ==> r.start + r.size <= next)
  }

  predicate Apart(r: Region, q: Region) {
    r.start + r.size <= q.start || q.start + q.size <= r.start
  }

  /** Live regions are aligned, inside their blocks, and pairwise disjoint. */
  ghost predicate LiveOk(blocks: seq<nat>, live: seq<Region>, next: nat) {
    && (forall i :: 0 <= i < |live| ==> InBlock(blocks, next, live[i]))
    && (forall i, j :: 0 <= i < j < |live| ==> Apart(live[i], live[j]))
  }

  /** No live region has changed. */
  ghost predicate Kept(live: seq<Region>, before: seq<byte>, after: seq<byte>) {
    && |before| == |after|
    && (forall i, a :: 0 <= i < |live| && Covers(live[i], a) && 0 <= a < |before| ==> after[a] == before[a])
  }

  ghost predicate Zero(mem: seq<byte>, lo: nat, hi: nat) {
    hi <= |mem| && forall a :: lo <= a < hi ==> mem[a] == 0
  }

  /** The runtime may place a new block of size 2^log at base. */
  predicate CanPlace(blocks: seq<nat>, limit: nat, base: nat, log: nat) {
    && base > 0 && base % ALIGN == 0 && base + Pow2(log) + TRACE <= limit
    && (forall k :: 0 <= k < |blocks| && blocks[k] != 0 ==> ChunksApart(blocks[k], Pow2(k), base, Pow2(log)))
  }

  // ----- Steps, on values -----

  /** Bumping next adds a region that is apart from all others. */
  lemma LiveAdds(blocks: seq<nat>, limit: nat, live: seq<Region>, next: nat, size: nat)
    requires BlocksOk(blocks, limit) && LiveOk(blocks, live, next) && blocks != []
    requires next % ALIGN == 0 && size > 0 && size % ALIGN == 0
    requires var k := |blocks| - 1; blocks[k] <= next && next + size <= blocks[k] + Pow2(k)
    ensures LiveOk(blocks, live + [Region(next, size, |blocks| - 1)], next + size)
  {
    hide Pow2;
    var r := Region(next, size, |blocks| - 1);
    forall i | 0 <= i < |live|
      ensures InBlock(blocks, next + size, live[i]) && Apart(live[i], r)
    {
      assert InBlock(blocks, next, live[i]);
      BlocksApart(blocks, limit, live[i].block, r.block);
    }
  }

  lemma BlocksApart(blocks: seq<nat>, limit: nat, j: nat, k: nat)
    requires BlocksOk(blocks, limit) && j < |blocks| && k < |blocks| && blocks[j] != 0 && blocks[k] != 0
    ensures j != k ==> ChunksApart(blocks[j], Pow2(j), blocks[k], Pow2(k))
  {
    if j < k {
      assert ChunksApart(blocks[j], Pow2(j), blocks[k], Pow2(k));
    } else if k < j {
      assert ChunksApart(blocks[k], Pow2(k), blocks[j], Pow2(j));
    }
  }

  /** The blocks after a new one of size 2^log, larger than all others, is placed at base. */
  function WithBlock(blocks: seq<nat>, log: nat, base: nat): seq<nat>
    requires |blocks| <= log
  {
    blocks + seq(log - |blocks|, _ => 0) + [base]
  }

  lemma BlocksAdd(blocks: seq<nat>, limit: nat, log: nat, base: nat)
    requires BlocksOk(blocks, limit) && CanPlace(blocks, limit, base, log) && |blocks| <= log && log >= 6
    ensures BlocksOk(WithBlock(blocks, log, base), limit)
  {
    hide Pow2;
    var more := WithBlock(blocks, log, base);
    forall k | 0 <= k < |more| && more[k] != 0
      ensures k == log || (k < |blocks| && more[k] == blocks[k])
    {
    }
  }

  lemma LiveStays(blocks: seq<nat>, limit: nat, live: seq<Region>, next: nat, log: nat, base: nat)
    requires BlocksOk(blocks, limit) && LiveOk(blocks, live, next) && |blocks| <= log
    ensures LiveOk(WithBlock(blocks, log, base), live, base)
  {
    hide Pow2;
    var more := WithBlock(blocks, log, base);
    forall i | 0 <= i < |live|
      ensures InBlock(more, base, live[i])
    {
      assert InBlock(blocks, next, live[i]);
      assert more[live[i].block] == blocks[live[i].block];
    }
  }

  /** A new block overlaps no live region. */
  lemma NewBlockApart(blocks: seq<nat>, limit: nat, live: seq<Region>, next: nat, base: nat, log: nat)
    requires LiveOk(blocks, live, next) && CanPlace(blocks, limit, base, log)
    ensures forall i :: 0 <= i < |live| ==> live[i].start + live[i].size <= base || base + Pow2(log) <= live[i].start
  {
    hide Pow2;
    forall i | 0 <= i < |live|
      ensures live[i].start + live[i].size <= base || base + Pow2(log) <= live[i].start
    {
      assert InBlock(blocks, next, live[i]);
    }
  }

  /** Only the most recent region can be where a reallocation in place looks for it. */
  lemma LastRegion(blocks: seq<nat>, limit: nat, live: seq<Region>, next: nat, i: nat)
    requires BlocksOk(blocks, limit) && LiveOk(blocks, live, next) && i < |live| && blocks != []
    requires blocks[|blocks| - 1] <= next <= blocks[|blocks| - 1] + Pow2(|blocks| - 1)
    requires live[i].start + live[i].size == next
    ensures live[i].block == |blocks| - 1
  {
    hide Pow2;
    assert InBlock(blocks, next, live[i]);
    BlocksApart(blocks, limit, live[i].block, |blocks| - 1);
  }

  /** Extending the most recent region keeps it apart from all others. */
  lemma LiveExtends(blocks: seq<nat>, limit: nat, live: seq<Region>, next: nat, i: nat, size: nat)
    requires BlocksOk(blocks, limit) && LiveOk(blocks, live, next) && i < |live|
    requires blocks != [] && live[i].block == |blocks| - 1 && live[i].start + live[i].size == next
    requires live[i].size <= size && size % ALIGN == 0
    requires live[i].start + size <= blocks[|blocks| - 1] + Pow2(|blocks| - 1)
    ensures LiveOk(blocks, live[i := live[i].(size := size)], live[i].start + size)
  {
    hide Pow2;
    var r := live[i].(size := size);
    forall j | 0 <= j < |live| && j != i
      ensures InBlock(blocks, live[i].start + size, live[j]) && Apart(live[j], r) && Apart(r, live[j])
    {
      assert InBlock(blocks, next, live[i]) && InBlock(blocks, next, live[j]);
      assert Apart(live[i], live[j]) || Apart(live[j], live[i]);
      BlocksApart(blocks, limit, live[j].block, live[i].block);
    }
    assert InBlock(blocks, next, live[i]);
  }

  // ----- Sizes of blocks -----

  /** The total size of the blocks held. */
  function Total(blocks: seq<nat>): nat {
    if blocks == [] then 0
    else Total(blocks[..|blocks| - 1]) + if blocks[|blocks| - 1] == 0 then 0 else Pow2(|blocks| - 1)
  }

  /** Each block is at least twice as large as any before, so together they are less than twice the largest. */
  lemma {:induction false} TotalBound(blocks: seq<nat>)
    ensures blocks != [] ==> Total(blocks) < 2 * Pow2(|blocks| - 1)
  {
    if |blocks| > 1 {
      TotalBound(blocks[..|blocks| - 1]);
    } else if |blocks| == 1 {
      assert blocks[..0] == [];
      assert Total(blocks[..0]) == 0;
    }
  }

  /** A new block is larger than every block held, so no block is handed out twice. */
  lemma GrowsBeyond(blocks: seq<nat>, size: nat)
    requires blocks != [] && size >= 2 * Pow2(|blocks| - 1)
    ensures SuggestLog(size) >= |blocks|
  {
    SuggestExact(size);
    if SuggestLog(size) < |blocks| - 1 {
      Pow2Grows(SuggestLog(size), |blocks| - 1);
    }
  }

  // ----- The arena -----

  class Arena {
    /** The address space; addresses are indices. */
    const mem: array<byte>

    var next: nat
    var end: nat
    var cap: nat
    var blocks: seq<nat>

    /** What has been allocated since the last Free. */
    ghost var live: seq<Region>

    ghost predicate Valid()
      reads this, mem
    {
      && BlocksOk(blocks, mem.Length) && LiveOk(blocks, live, next)
      && (if blocks == [] then next == end == cap == 0
          else cap == Pow2(|blocks| - 1) && end == blocks[|blocks| - 1] + cap
               && blocks[|blocks| - 1] <= next <= end && next % ALIGN == 0)
      && Zero(mem[..], next, end)
    }

    /** The logarithm of the block that Grow(size) allocates. */
    function GrowLog(size: nat): nat
      reads `cap
    {
      SuggestLog(if size > cap * 2 then size else cap * 2)
    }

    constructor (mem: array<byte>)
      ensures Valid() && this.mem == mem && blocks == [] && live == []
    {
      this.mem := mem;
      next, end, cap, blocks, live := 0, 0, 0, [], [];
    }

    /** AllocTraceable: the runtime places a zeroed block of size bytes at base, with a pointer after it. */
    method AllocTraceable(size: nat, base: nat)
      requires base + size + TRACE <= mem.Length
      modifies mem
      ensures Zero(mem[..], base, base + size)
      ensures forall a :: 0 <= a < mem.Length && !(base <= a < base + size) ==> mem[a] == old(mem[a])
    {
      for i := 0 to size
        invariant forall a :: base <= a < base + i ==> mem[a] == 0
        invariant forall a :: 0 <= a < mem.Length && !(base <= a < base + i) ==> mem[a] == old(mem[a])
      {
        mem[base + i] := 0;
      }
    }

    /** Stores bytes at p. */
    method Store(p: nat, data: seq<byte>)
      requires p + |data| <= mem.Length
      modifies mem
      ensures mem[p..p + |data|] == data
      ensures forall a :: 0 <= a < mem.Length && !(p <= a < p + |data|) ==> mem[a] == old(mem[a])
    {
      for i := 0 to |data|
        invariant forall k :: 0 <= k < i ==> mem[p + k] == data[k]
        invariant forall a :: 0 <= a < mem.Length && !(p <= a < p + i) ==> mem[a] == old(mem[a])
      {
        mem[p + i] := data[i];
      }
    }

    /** Copies n bytes from p to q. */
    method Copy(q: nat, p: nat, n: nat)
      requires p + n <= mem.Length && q + n <= mem.Length && (p + n <= q || q + n <= p)
      modifies mem
      ensures mem[q..q + n] == old(mem[p..p + n])
      ensures forall a :: 0 <= a < mem.Length && !(q <= a < q + n) ==> mem[a] == old(mem[a])
    {
      ghost var source := mem[p..p + n];
      for i := 0 to n
        invariant mem[q..q + i] == source[..i]
        invariant forall a :: 0 <= a < mem.Length && !(q <= a < q + i) ==> mem[a] == old(mem[a])
      {
        assert mem[p + i] == source[i];
        mem[q + i] := mem[p + i];
        assert mem[q..q + i + 1] == mem[q..q + i] + [mem[q + i]];
      }
    }

    /** allocChunk: the block of the size that is suggested for size bytes, new unless there is one already. */
    method AllocChunk(size: nat, base: nat) returns (p: nat, n: nat)
      requires 0 < size && base + Pow2(SuggestLog(size)) + TRACE <= mem.Length
      modifies this`blocks, mem
      ensures n == Pow2(SuggestLog(size))
      ensures var log := SuggestLog(size);
              if log < |old(blocks)| && old(blocks)[log] != 0 then
                p == old(blocks)[log] && blocks == old(blocks) && mem[..] == old(mem[..])
              else
                && p == base && Zero(mem[..], base, base + n)
                && blocks == (if log < |old(blocks)| then old(blocks)[log := base]
                   else WithBlock(old(blocks), log, base))
                && forall a :: 0 <= a < mem.Length && !(base <= a < base + n) ==> mem[a] == old(mem[a])
    {
      var log := SuggestLog(size);
      n := Pow2(log);
      if log < |blocks| {
        if blocks[log] == 0 {
          AllocTraceable(n, base);
          blocks := blocks[log := base];
        }
        return blocks[log], n;
      }
      p := base;
      AllocTraceable(n, base);
      blocks := WithBlock(blocks, log, base);
    }

    /**
     Grow: moves to a new block of at least the given size, and twice the last one. base is where the runtime
     places it.
     */
    method Grow(size: nat, base: nat)
      requires Valid() && (size > 0 || cap > 0)
      requires CanPlace(blocks, mem.Length, base, GrowLog(size))
      modifies this, mem
      ensures Valid() && live == old(live) && Kept(live, old(mem[..]), mem[..])
      ensures |blocks| == old(GrowLog(size)) + 1 > |old(blocks)| && blocks[..|old(blocks)|] == old(blocks)
      ensures next == base && end == base + cap && cap >= size && cap >= 2 * old(cap)
    {
      hide Pow2, SuggestLog, BlocksOk, LiveOk, CanPlace, Covers;
      var need := if size > cap * 2 then size else cap * 2;
      SuggestExact(need);
      if blocks != [] {
        GrowsBeyond(blocks, need);
      }
      CanPlaceFits(blocks, mem.Length, base, GrowLog(size));
      BlocksAdd(blocks, mem.Length, GrowLog(size), base);
      LiveStays(blocks, mem.Length, live, next, GrowLog(size), base);
      NewBlockApart(blocks, mem.Length, live, next, base, GrowLog(size));
      var p, n := AllocChunk(need, base);
      next := p;
      end := p + n;
      cap := n;
      KeptOutside(live, old(mem[..]), mem[..], base, base + n);
    }

    /** Zeros stay where nothing is stored. */
    lemma ZeroBeside(before: seq<byte>, after: seq<byte>, p: nat, q: nat, z: nat)
      requires |before| == |after| && p <= q && Zero(before, p, z)
      requires forall a :: 0 <= a < |after| && !(p <= a < q) ==> after[a] == before[a]
      ensures Zero(after, q, z)
    {
    }

    lemma ZeroPart(bytes: seq<byte>, p: nat, q: nat, z: nat)
      requires p <= q <= z && Zero(bytes, p, z)
      ensures z <= |bytes| && Zero(bytes, p, q) && Zero(bytes, q, z)
    {
    }

    /** A header that is stored in free memory changes nothing in live regions and nothing after it. */
    lemma HeaderStored(blocks: seq<nat>, live: seq<Region>, before: seq<byte>, after: seq<byte>, p: nat, h: nat,
                       size: nat, end: nat)
      requires BlocksOk(blocks, |before|) && LiveOk(blocks, live, p) && blocks != [] && h <= size && p + size <= end
      requires var k := |blocks| - 1; blocks[k] <= p && end == blocks[k] + Pow2(k)
      requires |before| == |after| && Zero(before, p, end)
      requires forall a :: 0 <= a < |after| && !(p <= a < p + h) ==> after[a] == before[a]
      ensures Kept(live, before, after) && Zero(after, p + h, p + size) && Zero(after, p + size, end)
    {
      hide Pow2, BlocksOk, LiveOk, Kept, Zero;
      LiveBefore(blocks, |before|, live, p, size);
      KeptOutside(live, before, after, p, p + size);
      ZeroBeside(before, after, p, p + h, end);
      ZeroPart(after, p + h, p + size, end);
    }

    /** Alloc: the size is rounded up to a pointer boundary, and a new block is only taken if it does not fit. */
    method Alloc(size: nat, base: nat) returns (p: nat)
      requires Valid()
      requires next + RoundUp(size) > end ==> CanPlace(blocks, mem.Length, base, GrowLog(RoundUp(size)))
      modifies this, mem
      ensures Valid() && Kept(old(live), old(mem[..]), mem[..])
      ensures Zero(mem[..], p, p + RoundUp(size)) && p % ALIGN == 0 && next == p + RoundUp(size) && next <= end
      ensures old(next + RoundUp(size) <= end) ==>
              p == old(next) && end == old(end) && cap == old(cap) && blocks == old(blocks)
      ensures old(next + RoundUp(size) > end) ==> p == base && |blocks| == old(GrowLog(RoundUp(size))) + 1
      ensures size == 0 ==> live == old(live)
      ensures size > 0 ==> live == old(live) + [Region(p, RoundUp(size), |blocks| - 1)]
    {
      hide Pow2, SuggestLog, BlocksOk, LiveOk, CanPlace, Covers, Kept, Zero;
      var n := RoundUp(size);
      KeptOutside(live, mem[..], mem[..], 0, 0);
      if next + n > end {
        Grow(n, base);
      }
      p := next;
      ZeroPart(mem[..], p, p + n, end);
      if n > 0 {
        LiveAdds(blocks, mem.Length, live, next, n);
        live := live + [Region(next, n, |blocks| - 1)];
      }
      next := next + n;
    }

    /**
     AllocMessage: the same for a size that is already rounded, written out by hand; the header is stored and the
     fields are zero.
     */
    method AllocMessage(size: nat, header: seq<byte>, base: nat) returns (p: nat)
      requires Valid() && size % ALIGN == 0 && 0 < |header| <= size
      requires next + size > end ==> CanPlace(blocks, mem.Length, base, GrowLog(size))
      modifies this, mem
      ensures Valid() && Kept(old(live), old(mem[..]), mem[..])
      ensures next == p + size && next <= end && p % ALIGN == 0
      ensures live == old(live) + [Region(p, size, |blocks| - 1)]
      ensures mem[p..p + |header|] == header && Zero(mem[..], p + |header|, p + size)
    {
      hide Pow2, SuggestLog, BlocksOk, LiveOk, CanPlace, Kept, Covers, Zero;
      KeptOutside(live, mem[..], mem[..], 0, 0);
      if next + size > end {
        Grow(size, base);
      }
      p, next := next, next + size;
      ghost var before := mem[..];
      LiveAdds(blocks, mem.Length, live, p, size);
      ZeroPart(before, p, p, end);
      Store(p, header);
      HeaderStored(blocks, live, before, mem[..], p, |header|, size, end);
      KeptTrans(old(live), live, old(mem[..]), before, mem[..]);
      live := live + [Region(p, size, |blocks| - 1)];
    }

    /** A run of allocations whose rounded total fits in what is left of the block never calls Grow. */
    method AllocAll(sizes: seq<nat>) returns (ps: seq<nat>)
      requires Valid() && next + Rounded(sizes) <= end
      modifies this, mem
      ensures Valid() && Kept(old(live), old(mem[..]), mem[..])
      ensures blocks == old(blocks) && cap == old(cap) && end == old(end) && next == old(next) + Rounded(sizes)
      ensures |ps| == |sizes| && forall k :: 0 <= k < |ps| ==> ps[k] == old(next) + Rounded(sizes[..k])
    {
      hide Pow2, SuggestLog, BlocksOk, LiveOk, CanPlace, Covers, Kept, Zero;
      KeptOutside(live, mem[..], mem[..], 0, 0);
      ps := [];
      assert sizes[..0] == [];
      for k := 0 to |sizes|
        invariant Valid() && old(live) <= live && Kept(old(live), old(mem[..]), mem[..])
        invariant blocks == old(blocks) && cap == old(cap) && end == old(end) && next == old(next) + Rounded(sizes[..k])
        invariant |ps| == k && forall i :: 0 <= i < k ==> ps[i] == old(next) + Rounded(sizes[..i])
      {
        RoundedPrefix(sizes, k);
        ghost var live0, mem0 := live, mem[..];
        var p := Alloc(sizes[k], 0);
        KeptTrans(old(live), live0, old(mem[..]), mem0, mem[..]);
        ps := ps + [p];
      }
      assert sizes[..|sizes|] == sizes;
    }

    /** Reserve: afterwards size bytes fit. */
    method Reserve(size: nat, base: nat)
      requires Valid() && (next + size > end ==> CanPlace(blocks, mem.Length, base, GrowLog(size)))
      modifies this, mem
      ensures Valid() && live == old(live) && Kept(live, old(mem[..]), mem[..]) && next + size <= end
      ensures old(next + size <= end) ==> next == old(next) && end == old(end) && blocks == old(blocks)
    {
      if next + size > end {
        Grow(size, base);
      }
    }

    /** Free: keeps the largest block, cleared, and nothing else. It demands that there is a block. */
    method Free()
      requires Valid() && blocks != []
      modifies this, mem
      ensures Valid() && live == [] && cap == old(cap) && end - next == cap
      ensures |blocks| == |old(blocks)| && blocks[|blocks| - 1] == old(blocks)[|blocks| - 1] == next
      ensures forall k :: 0 <= k < |blocks| - 1 ==> blocks[k] == 0
    {
      hide Pow2;
      var last := |blocks| - 1;
      for i := 0 to last
        invariant |blocks| == |old(blocks)| && blocks[last] == old(blocks)[last]
        invariant forall k :: 0 <= k < i ==> blocks[k] == 0
        invariant next == old(next) && end == old(end) && cap == old(cap) && mem[..] == old(mem[..])
      {
        blocks := blocks[i := 0];
      }
      next := blocks[last];
      end := next + Pow2(last);
      cap := Pow2(last);
      ghost var lo, hi := next, end;
      for a := next to end
        modifies mem
        invariant forall b :: lo <= b < a ==> mem[b] == 0
      {
        mem[a] := 0;
      }
      live := [];
    }
  }

  /** The space that a list of allocations takes in a block. */
  function Rounded(sizes: seq<nat>): nat {
    if sizes == [] then 0 else Rounded(sizes[..|sizes| - 1]) + RoundUp(sizes[|sizes| - 1])
  }

  lemma {:induction false} RoundedPrefix(sizes: seq<nat>, k: nat)
    requires k < |sizes|
    ensures Rounded(sizes[..k + 1]) == Rounded(sizes[..k]) + RoundUp(sizes[k])
    ensures Rounded(sizes[..k + 1]) <= Rounded(sizes)
    decreases |sizes|
  {
    assert sizes[..k + 1][..k] == sizes[..k];
    if k + 1 < |sizes| {
      var shorter := sizes[..|sizes| - 1];
      RoundedPrefix(shorter, k);
      assert shorter[..k + 1] == sizes[..k + 1] && shorter[..k] == sizes[..k];
    } else {
      assert sizes[..k + 1] == sizes;
    }
  }

  lemma KeptTrans(live: seq<Region>, more: seq<Region>, a: seq<byte>, b: seq<byte>, c: seq<byte>)
    requires live <= more && Kept(live, a, b) && Kept(more, b, c)
    ensures Kept(live, a, c)
  {
    forall i, p | 0 <= i < |live| && Covers(live[i], p) && 0 <= p < |a|
      ensures c[p] == a[p]
    {
      assert more[i] == live[i];
    }
  }

  /** Live regions lie outside what is left of the last block. */
  lemma LiveBefore(blocks: seq<nat>, limit: nat, live: seq<Region>, next: nat, size: nat)
    requires BlocksOk(blocks, limit) && LiveOk(blocks, live, next) && blocks != []
    requires var k := |blocks| - 1; blocks[k] <= next && next + size <= blocks[k] + Pow2(k)
    ensures forall i :: 0 <= i < |live| ==> live[i].start + live[i].size <= next || next + size <= live[i].start
  {
    hide Pow2;
    forall i | 0 <= i < |live|
      ensures live[i].start + live[i].size <= next || next + size <= live[i].start
    {
      assert InBlock(blocks, next, live[i]);
      BlocksApart(blocks, limit, live[i].block, |blocks| - 1);
    }
  }

  /** A live region lies in the address space, apart from all others. */
  lemma LiveAt(blocks: seq<nat>, limit: nat, live: seq<Region>, next: nat, i: nat)
    requires BlocksOk(blocks, limit) && LiveOk(blocks, live, next) && i < |live|
    ensures live[i].start + live[i].size <= limit && live[i].start % ALIGN == 0
    ensures forall j :: 0 <= j < |live| && j != i ==>
              live[j].start + live[j].size <= live[i].start || live[i].start + live[i].size <= live[j].start
  {
    hide Pow2;
    assert InBlock(blocks, next, live[i]);
    forall j | 0 <= j < |live| && j != i
      ensures live[j].start + live[j].size <= live[i].start || live[i].start + live[i].size <= live[j].start
    {
      assert if i < j then Apart(live[i], live[j]) else Apart(live[j], live[i]);
    }
  }

  lemma KeptAt(live: seq<Region>, before: seq<byte>, after: seq<byte>, i: nat)
    requires Kept(live, before, after) && i < |live| && live[i].start + live[i].size <= |before|
    ensures before[live[i].start..live[i].start + live[i].size] == after[live[i].start..live[i].start + live[i].size]
  {
    forall a | live[i].start <= a < live[i].start + live[i].size
      ensures before[a] == after[a]
    {
      assert Covers(live[i], a);
    }
  }

  lemma CanPlaceFits(blocks: seq<nat>, limit: nat, base: nat, log: nat)
    requires CanPlace(blocks, limit, base, log)
    ensures base > 0 && base % ALIGN == 0 && base + Pow2(log) + TRACE <= limit
  {
  }

  lemma KeptOutside(live: seq<Region>, before: seq<byte>, after: seq<byte>, lo: nat, hi: nat)
    requires |before| == |after| && forall a :: 0 <= a < |before| && !(lo <= a < hi) ==> after[a] == before[a]
    requires forall i :: 0 <= i < |live| ==> live[i].start + live[i].size <= lo || hi <= live[i].start
    ensures Kept(live, before, after)
  {
  }
}
