/** The memory layout of a message type (internal/tdp/compiler/ir.go, doLayout). */
module Layout {
  import opened Wrappers

  /** A field's share of its archetype, the oneof it is stored in, and whether it is the first member there. */
  datatype Field = Field(size: nat, align: nat, bits: nat, oneof: Option<nat>, first: bool, number: nat)

  /** Where a field is stored. The data offset of a cold field is complemented. */
  datatype Offset = Offset(bit: nat, data: int, number: nat)

  /** A struct slot, shared by the fields listed in it. */
  datatype Slot = Slot(fields: seq<nat>, size: nat, align: nat, bits: nat, hot: bool, offset: Offset)

  const NOWHERE := Offset(0, 0, 0)
  const MESSAGE_SIZE: nat := 16
  const COLD_SIZE: nat := 16
  const MAX_INT32: nat := 0x7fff_ffff
  const TWO32: nat := 0x1_0000_0000

  /** int32(v), for v >= 0. */
  function Int32(v: nat): int {
    var w := v % TWO32;
    if w <= MAX_INT32 then w else w - TWO32
  }

  /** ^v. */
  function Complement(v: int): int {
    -1 - v
  }

  ghost predicate FieldOk(f: Field) {
    f.align in {0, 1, 2, 4, 8} && f.bits <= 2 && (f.oneof.Some? ==> f.bits == 0)
  }

  /** The members of a oneof are contiguous and only the first is marked so. */
  ghost predicate FieldsOk(ts: seq<Field>) {
    && |ts| < 0x2000_0000
    && (forall j :: 0 <= j < |ts| ==> FieldOk(ts[j]))
    && (forall j :: 0 <= j < |ts| && ts[j].oneof.Some? && !ts[j].first ==> j > 0 && ts[j - 1].oneof == ts[j].oneof)
    && (forall i, j :: 0 <= i < j < |ts| && ts[i].oneof.Some? && ts[i].oneof == ts[j].oneof ==> !ts[j].first)
  }

  // ----- Grouping fields into slots -----

  predicate Same(ts: seq<Field>, i: nat, j: nat)
    requires i < |ts| && j < |ts|
  {
    i == j || (ts[i].oneof.Some? && ts[i].oneof == ts[j].oneof)
  }

  predicate Holds(slots: seq<Slot>, s: int, j: nat) {
    0 <= s < |slots| && j in slots[s].fields
  }

  ghost predicate Held(slots: seq<Slot>, j: nat) {
    exists s :: Holds(slots, s, j)
  }

  /** Every one of the first n fields is in one slot, which it shares with exactly the members of its oneof. */
  ghost predicate Grouped(ts: seq<Field>, slots: seq<Slot>, n: nat) {
    && n <= |ts|
    && (forall s :: 0 <= s < |slots| ==> slots[s].fields != [])
    && (forall s, j: nat :: Holds(slots, s, j) ==> j < n)
    && (forall j :: 0 <= j < n ==> Held(slots, j))
    && (forall s, t, i: nat, j: nat :: Holds(slots, s, i) && Holds(slots, t, j) ==> (s == t <==> Same(ts, i, j)))
  }

  /** Slots are listed in the order of their first fields. */
  ghost predicate Listed(slots: seq<Slot>) {
    && (forall s :: 0 <= s < |slots| ==> slots[s].fields != [])
    && (forall s, t :: 0 <= s < t < |slots| ==> slots[s].fields[0] < slots[t].fields[0])
  }

  method Group(ts: seq<Field>) returns (slots: seq<Slot>)
    requires FieldsOk(ts)
    ensures Grouped(ts, slots, |ts|) && Listed(slots)
    ensures |slots| <= |ts|
    ensures forall s :: 0 <= s < |slots| ==>
            slots[s].size == slots[s].align == slots[s].bits == 0 && slots[s].offset == NOWHERE
  {
    slots := [];
    for j := 0 to |ts|
      invariant Grouped(ts, slots, j) && Listed(slots)
      invariant j > 0 ==> Holds(slots, |slots| - 1, j - 1)
      invariant |slots| <= j
      invariant forall s :: 0 <= s < |slots| ==>
                slots[s].size == slots[s].align == slots[s].bits == 0 && slots[s].offset == NOWHERE
    {
      ghost var before := slots;
      if ts[j].oneof.Some? && !ts[j].first {
        var last := slots[|slots| - 1];
        slots := slots[|slots| - 1 := last.(fields := last.fields + [j])];
        MemberGrouped(ts, before, j);
      } else {
        slots := slots + [Slot([j], 0, 0, 0, false, NOWHERE)];
        NewGrouped(ts, before, j);
        FirstBelow(ts, before, j);
      }
    }
  }

  lemma FirstBelow(ts: seq<Field>, slots: seq<Slot>, n: nat)
    requires Grouped(ts, slots, n)
    ensures forall s :: 0 <= s < |slots| ==> slots[s].fields != [] && slots[s].fields[0] < n
  {
    forall s | 0 <= s < |slots|
      ensures slots[s].fields != [] && slots[s].fields[0] < n
    {
      assert Holds(slots, s, slots[s].fields[0]);
    }
  }

  lemma MemberGrouped(ts: seq<Field>, before: seq<Slot>, j: nat)
    requires FieldsOk(ts) && j < |ts| && Grouped(ts, before, j) && ts[j].oneof.Some? && !ts[j].first
    requires j > 0 ==> Holds(before, |before| - 1, j - 1)
    ensures |before| > 0
    ensures var last := before[|before| - 1];
            var slots := before[|before| - 1 := last.(fields := last.fields + [j])];
            Grouped(ts, slots, j + 1) && Holds(slots, |slots| - 1, j)
  {
    hide FieldOk;
    var last := before[|before| - 1];
    var slots := before[|before| - 1 := last.(fields := last.fields + [j])];
    assert forall s, i :: Holds(slots, s, i) <==> Holds(before, s, i) || (s == |slots| - 1 && i == j);
    forall i | 0 <= i < j + 1
      ensures Held(slots, i)
    {
      if i < j {
        assert Held(before, i);
        var s :| Holds(before, s, i);
        assert Holds(slots, s, i);
      } else {
        assert Holds(slots, |slots| - 1, j);
      }
    }
    forall s, i | Holds(before, s, i)
      ensures s == |slots| - 1 <==> Same(ts, i, j)
    {
      assert s == |slots| - 1 <==> Same(ts, i, j - 1);
    }
  }

  lemma NewGrouped(ts: seq<Field>, before: seq<Slot>, j: nat)
    requires FieldsOk(ts) && j < |ts| && Grouped(ts, before, j) && (ts[j].oneof.None? || ts[j].first)
    ensures var slots := before + [Slot([j], 0, 0, 0, false, NOWHERE)];
            Grouped(ts, slots, j + 1) && Holds(slots, |slots| - 1, j)
  {
    hide FieldOk;
    var slots := before + [Slot([j], 0, 0, 0, false, NOWHERE)];
    assert forall s, i :: Holds(slots, s, i) <==> Holds(before, s, i) || (s == |slots| - 1 && i == j);
    forall i | 0 <= i < j + 1
      ensures Held(slots, i)
    {
      if i < j {
        assert Held(before, i);
        var s :| Holds(before, s, i);
        assert Holds(slots, s, i);
      } else {
        assert Holds(slots, |slots| - 1, j);
      }
    }
  }

  // ----- Sizes -----

  /**
   The slot is as large and as aligned as each of its fields, has as many bits, and is no more than some field asks for.
   */
  ghost predicate Measured(ts: seq<Field>, slot: Slot) {
    && slot.align in {0, 1, 2, 4, 8} && slot.bits <= 2
    && (forall j :: j in slot.fields ==>
       j < |ts| && ts[j].size <= slot.size && ts[j].align <= slot.align && ts[j].bits <= slot.bits)
    && (slot.bits > 0 ==> exists j :: j in slot.fields && ts[j].bits == slot.bits)
    && (slot.align > 0 ==> exists j :: j in slot.fields && ts[j].align == slot.align)
    && (slot.size > 0 ==> exists j :: j in slot.fields && ts[j].size == slot.size)
    && slot.offset == NOWHERE
  }

  predicate IsOneof(ts: seq<Field>, slot: Slot) {
    slot.fields != [] && slot.fields[0] < |ts| && ts[slot.fields[0]].oneof.Some?
  }

  function SumBits(slots: seq<Slot>): nat {
    if slots == [] then 0 else slots[0].bits + SumBits(slots[1..])
  }

  function CountOneofs(ts: seq<Field>, slots: seq<Slot>): nat {
    if slots == [] then 0 else (if IsOneof(ts, slots[0]) then 1 else 0) + CountOneofs(ts, slots[1..])
  }

  lemma {:induction false} SumsAppend(ts: seq<Field>, a: seq<Slot>, b: seq<Slot>)
    ensures SumBits(a + b) == SumBits(a) + SumBits(b)
    ensures CountOneofs(ts, a + b) == CountOneofs(ts, a) + CountOneofs(ts, b)
  {
    if a == [] {
      assert a + b == b;
    } else {
      SumsAppend(ts, a[1..], b);
      assert (a + b)[1..] == a[1..] + b;
    }
  }

  method MeasureSlot(ts: seq<Field>, slot: Slot, isHot: seq<nat> -> bool) returns (r: Slot)
    requires FieldsOk(ts) && slot.size == slot.align == slot.bits == 0 && slot.offset == NOWHERE
    requires forall j :: j in slot.fields ==> j < |ts|
    ensures r.fields == slot.fields && Measured(ts, r) && r.hot == isHot(slot.fields)
  {
    hide Measured, FieldOk, FieldsOk;
    r := slot;
    NothingMeasured(ts, r.(fields := slot.fields[..0]));
    for k := 0 to |slot.fields|
      invariant r.fields == slot.fields && r.hot == slot.hot && r.offset == NOWHERE
      invariant Measured(ts, r.(fields := slot.fields[..k]))
    {
      assert slot.fields[k] in slot.fields;
      var f := ts[slot.fields[k]];
      FieldAt(ts, slot.fields[k]);
      ghost var shorter := r.(fields := slot.fields[..k]);
      assert shorter.fields == slot.fields[..k];
      assert slot.fields[..k + 1] == slot.fields[..k] + [slot.fields[k]];
      r := r.(size := if f.size > r.size then f.size else r.size,
              align := if f.align > r.align then f.align else r.align,
              bits := if f.bits > r.bits then f.bits else r.bits);
      MeasureOne(ts, shorter, slot.fields[k], r.(fields := slot.fields[..k + 1]));
    }
    assert slot.fields[..|slot.fields|] == slot.fields;
    r := r.(hot := isHot(slot.fields));
    MeasuredEitherSide(ts, r.(hot := slot.hot), r.hot);
  }

  lemma NothingMeasured(ts: seq<Field>, s: Slot)
    requires s.fields == [] && s.size == s.align == s.bits == 0 && s.offset == NOWHERE
    ensures Measured(ts, s)
  {
  }

  lemma MeasuredEitherSide(ts: seq<Field>, s: Slot, hot: bool)
    requires Measured(ts, s)
    ensures Measured(ts, s.(hot := hot))
  {
  }

  lemma MeasureOne(ts: seq<Field>, shorter: Slot, j: nat, r: Slot)
    requires Measured(ts, shorter) && j < |ts| && FieldOk(ts[j])
    requires r.fields == shorter.fields + [j] && r.offset == NOWHERE
    requires r.size == if ts[j].size > shorter.size then ts[j].size else shorter.size
    requires r.align == if ts[j].align > shorter.align then ts[j].align else shorter.align
    requires r.bits == if ts[j].bits > shorter.bits then ts[j].bits else shorter.bits
    ensures Measured(ts, r)
  {
    assert r.fields[|r.fields| - 1] == j;
    if r.bits > ts[j].bits {
      var i :| i in shorter.fields && ts[i].bits == shorter.bits;
      assert i in r.fields;
    }
    if r.align > ts[j].align {
      var i :| i in shorter.fields && ts[i].align == shorter.align;
      assert i in r.fields;
    }
    if r.size > ts[j].size {
      var i :| i in shorter.fields && ts[i].size == shorter.size;
      assert i in r.fields;
    }
  }

  /** Every slot is on the side of its fields. */
  ghost predicate Sided(slots: seq<Slot>, isHot: seq<nat> -> bool) {
    forall k :: 0 <= k < |slots| ==> slots[k].hot == isHot(slots[k].fields)
  }

  /** The size, alignment, bits and side of every slot, and the total of bits and oneofs. */
  method Measure(ts: seq<Field>, slots: seq<Slot>, isHot: seq<nat> -> bool)
    returns (ms: seq<Slot>, bits: nat, oneofs: nat)
    requires FieldsOk(ts) && Grouped(ts, slots, |ts|)
    requires forall s :: 0 <= s < |slots| ==>
             slots[s].size == slots[s].align == slots[s].bits == 0 && slots[s].offset == NOWHERE
    ensures |ms| == |slots| && (forall s :: 0 <= s < |ms| ==> ms[s].fields == slots[s].fields && Measured(ts, ms[s]))
    ensures Sided(ms, isHot)
    ensures bits == SumBits(ms) <= 2 * |ms| && oneofs == CountOneofs(ts, ms) <= |ms|
  {
    hide Grouped, Measured, FieldsOk;
    ms, bits, oneofs := [], 0, 0;
    for s := 0 to |slots|
      invariant |ms| == s && forall k :: 0 <= k < s ==> ms[k].fields == slots[k].fields && Measured(ts, ms[k])
      invariant Sided(ms, isHot)
      invariant bits == SumBits(ms) <= 2 * s && oneofs == CountOneofs(ts, ms) <= s
    {
      GroupedAt(ts, slots, s);
      var m := MeasureSlot(ts, slots[s], isHot);
      MeasuredBits(ts, m);
      SumsAppend(ts, ms, [m]);
      assert SumBits([m]) == m.bits;
      bits := bits + m.bits;
      assert m.fields[0] in slots[s].fields;
      if ts[m.fields[0]].oneof.Some? {
        oneofs := oneofs + 1;
      }
      ms := ms + [m];
    }
  }

  lemma GroupedAt(ts: seq<Field>, slots: seq<Slot>, s: nat)
    requires Grouped(ts, slots, |ts|) && s < |slots|
    ensures slots[s].fields != [] && forall j :: j in slots[s].fields ==> j < |ts|
  {
    forall j | j in slots[s].fields
      ensures j < |ts|
    {
      assert Holds(slots, s, j);
    }
  }

  lemma MeasuredBits(ts: seq<Field>, m: Slot)
    requires Measured(ts, m)
    ensures m.bits <= 2
  {
  }

  lemma MeasuredGrouped(ts: seq<Field>, slots: seq<Slot>, ms: seq<Slot>)
    requires Grouped(ts, slots, |ts|)
    requires |ms| == |slots| && (forall s :: 0 <= s < |ms| ==> ms[s].fields == slots[s].fields)
    ensures Grouped(ts, ms, |ts|)
  {
    assert forall s, j :: Holds(slots, s, j) <==> Holds(ms, s, j);
    forall j | 0 <= j < |ts|
      ensures Held(ms, j)
    {
      assert Held(slots, j);
      var s :| Holds(slots, s, j);
      assert Holds(ms, s, j);
    }
  }

  // ----- Sorting -----

  /** Hot slots come before cold ones and larger alignments before smaller ones. */
  predicate Less(a: Slot, b: Slot) {
    if a.hot == b.hot then a.align > b.align else a.hot
  }

  /** A rearrangement: each of n places once. */
  ghost predicate IsPermutation(perm: seq<nat>, n: nat) {
    && |perm| == n
    && (forall i :: 0 <= i < n ==> perm[i] < n)
    && (forall i, j :: 0 <= i < j < n ==> perm[i] != perm[j])
    && (forall k :: 0 <= k < n ==> k in perm)
  }

  /** A stable sort: sorted lists slots in the places perm, in order, and equals keep their order. */
  ghost predicate StableSorted(slots: seq<Slot>, sorted: seq<Slot>, perm: seq<nat>) {
    && |sorted| == |slots| && IsPermutation(perm, |slots|)
    && (forall i :: 0 <= i < |sorted| ==> sorted[i] == slots[perm[i]])
    && (forall i, j :: 0 <= i < j < |sorted| ==> InOrder(sorted[i], perm[i], sorted[j], perm[j]))
  }

  /** Slot a, from place p, may come before slot b, from place q. */
  ghost predicate InOrder(a: Slot, p: nat, b: Slot, q: nat) {
    Less(a, b) || (!Less(b, a) && p < q)
  }

  method StableSort(ts: seq<Field>, slots: seq<Slot>) returns (sorted: seq<Slot>, ghost perm: seq<nat>)
    ensures StableSorted(slots, sorted, perm)
    ensures SumBits(sorted) == SumBits(slots) && CountOneofs(ts, sorted) == CountOneofs(ts, slots)
  {
    hide StableSorted, SumBits, CountOneofs, Less;
    sorted, perm := [], [];
    assert slots[..0] == [];
    NothingSorted();
    for n := 0 to |slots|
      invariant StableSorted(slots[..n], sorted, perm)
      invariant |sorted| == |perm| == n
      invariant SumBits(sorted) == SumBits(slots[..n]) && CountOneofs(ts, sorted) == CountOneofs(ts, slots[..n])
    {
      var x := slots[n];
      var k := n;
      while k > 0 && Less(x, sorted[k - 1])
        invariant 0 <= k <= n
        invariant forall i :: k <= i < n ==> Less(x, sorted[i])
      {
        k := k - 1;
      }
      InsertStable(slots, n, sorted, perm, k);
      InsertSums(ts, slots[..n], sorted, x, k);
      assert slots[..n + 1] == slots[..n] + [x];
      sorted := sorted[..k] + [x] + sorted[k..];
      perm := perm[..k] + [n] + perm[k..];
    }
    assert slots[..|slots|] == slots;
  }

  lemma NothingSorted()
    ensures StableSorted([], [], [])
  {
  }

  lemma InsertSums(ts: seq<Field>, slots: seq<Slot>, sorted: seq<Slot>, x: Slot, k: nat)
    requires k <= |sorted| && SumBits(sorted) == SumBits(slots) && CountOneofs(ts, sorted) == CountOneofs(ts, slots)
    ensures SumBits(sorted[..k] + [x] + sorted[k..]) == SumBits(slots + [x])
    ensures CountOneofs(ts, sorted[..k] + [x] + sorted[k..]) == CountOneofs(ts, slots + [x])
  {
    hide SumBits, CountOneofs;
    SumsAppend(ts, slots, [x]);
    SumsAppend(ts, sorted[..k], sorted[k..]);
    SumsAppend(ts, sorted[..k] + [x], sorted[k..]);
    SumsAppend(ts, sorted[..k], [x]);
    assert sorted[..k] + sorted[k..] == sorted;
  }

  /** A slot that does not go before b goes after anything before b, if it is taken last. */
  lemma GoesAfter(a: Slot, p: nat, b: Slot, q: nat, x: Slot, n: nat)
    requires !Less(x, b) && p < n && (a == b || InOrder(a, p, b, q))
    ensures InOrder(a, p, x, n)
  {
  }

  lemma InsertStable(slots: seq<Slot>, n: nat, sorted: seq<Slot>, perm: seq<nat>, k: nat)
    requires n < |slots| && StableSorted(slots[..n], sorted, perm) && k <= n
    requires forall i :: k <= i < n ==> Less(slots[n], sorted[i])
    requires k > 0 ==> !Less(slots[n], sorted[k - 1])
    ensures StableSorted(slots[..n + 1], sorted[..k] + [slots[n]] + sorted[k..], perm[..k] + [n] + perm[k..])
  {
    hide Less, IsPermutation, InOrder;
    PermutationBelow(perm, n);
    var x := slots[n];
    var s2, p2 := sorted[..k] + [x] + sorted[k..], perm[..k] + [n] + perm[k..];
    InsertPermutation(n, perm, k);
    forall i | 0 <= i < |s2|
      ensures s2[i] == slots[..n + 1][p2[i]]
    {
      if i != k {
        var i0 := if i < k then i else i - 1;
        assert s2[i] == sorted[i0] == slots[..n][perm[i0]] && p2[i] == perm[i0];
      }
    }
    forall i, j | 0 <= i < j < |s2|
      ensures InOrder(s2[i], p2[i], s2[j], p2[j])
    {
      InsertOrder(sorted, perm, n, x, k, i, j);
    }
  }

  lemma InsertOrder(sorted: seq<Slot>, perm: seq<nat>, n: nat, x: Slot, k: nat, i: nat, j: nat)
    requires |sorted| == |perm| == n && k <= n && i < j <= n
    requires forall i, j :: 0 <= i < j < n ==> InOrder(sorted[i], perm[i], sorted[j], perm[j])
    requires forall i :: 0 <= i < n ==> perm[i] < n
    requires forall i :: k <= i < n ==> Less(x, sorted[i])
    requires k > 0 ==> !Less(x, sorted[k - 1])
    ensures var s2, p2 := sorted[..k] + [x] + sorted[k..], perm[..k] + [n] + perm[k..];
            InOrder(s2[i], p2[i], s2[j], p2[j])
  {
    hide Less;
    if j == k {
      GoesAfter(sorted[i], perm[i], sorted[k - 1], perm[k - 1], x, n);
    } else if i != k {
      var i0, j0 := if i < k then i else i - 1, if j < k then j else j - 1;
      assert InOrder(sorted[i0], perm[i0], sorted[j0], perm[j0]);
    }
  }

  lemma PermutationBelow(perm: seq<nat>, n: nat)
    requires IsPermutation(perm, n)
    ensures |perm| == n && forall i :: 0 <= i < n ==> perm[i] < n
  {
  }

  lemma InsertPermutation(n: nat, perm: seq<nat>, k: nat)
    requires IsPermutation(perm, n) && k <= n
    ensures IsPermutation(perm[..k] + [n] + perm[k..], n + 1)
  {
    var p2 := perm[..k] + [n] + perm[k..];
    forall m | 0 <= m < n + 1
      ensures m in p2
    {
      if m < n {
        assert m in perm;
        var i :| 0 <= i < n && perm[i] == m;
        assert p2[if i < k then i else i + 1] == m;
      } else {
        assert p2[k] == n;
      }
    }
  }

  lemma SortedGrouped(ts: seq<Field>, slots: seq<Slot>, sorted: seq<Slot>, perm: seq<nat>)
    requires Grouped(ts, slots, |ts|) && StableSorted(slots, sorted, perm)
    ensures Grouped(ts, sorted, |ts|)
  {
    hide Same, Less;
    forall s, j | Holds(sorted, s, j)
      ensures Holds(slots, perm[s], j)
    {
    }
    forall j | 0 <= j < |ts|
      ensures Held(sorted, j)
    {
      assert Held(slots, j);
      var s :| Holds(slots, s, j);
      assert s in perm;
      var k :| 0 <= k < |perm| && perm[k] == s;
      assert Holds(sorted, k, j);
    }
  }

  /** Hot before cold, larger alignments before smaller ones, and otherwise the order of the first fields. */
  ghost predicate Ordered(slots: seq<Slot>) {
    && (forall k :: 0 <= k < |slots| ==> slots[k].fields != [])
    && forall j, k :: 0 <= j < k < |slots| ==>
         if slots[j].hot != slots[k].hot then slots[j].hot
         else if slots[j].align != slots[k].align then slots[j].align > slots[k].align
         else slots[j].fields[0] < slots[k].fields[0]
  }

  lemma SortedOrdered(slots: seq<Slot>, sorted: seq<Slot>, perm: seq<nat>)
    requires StableSorted(slots, sorted, perm) && Listed(slots)
    ensures Ordered(sorted)
  {
    forall j, k | 0 <= j < k < |sorted|
      ensures if sorted[j].hot != sorted[k].hot then sorted[j].hot
              else if sorted[j].align != sorted[k].align then sorted[j].align > sorted[k].align
              else sorted[j].fields[0] < sorted[k].fields[0]
    {
      assert InOrder(sorted[j], perm[j], sorted[k], perm[k]);
    }
  }

  lemma SortedSided(slots: seq<Slot>, sorted: seq<Slot>, perm: seq<nat>, isHot: seq<nat> -> bool)
    requires StableSorted(slots, sorted, perm) && Sided(slots, isHot)
    ensures Sided(sorted, isHot)
  {
  }

  // ----- Assigning offsets -----

  /** p is a multiple of align, which is 1, 2, 4 or 8. */
  predicate Aligned(p: int, align: nat) {
    match align
    case 1 => true
    case 2 => p % 2 == 0
    case 4 => p % 4 == 0
    case 8 => p % 8 == 0
    case _ => false
  }

  /** layout.Padding, for an alignment that is a power of two. */
  function Padding(v: nat, align: nat): (p: nat)
    requires align in {1, 2, 4, 8}
    ensures Aligned(v + p, align) && p < align
  {
    if v % align == 0 then 0 else align - v % align
  }

  /** The next free byte of each region, presence bit and which-word. */
  datatype Free = Free(hot: nat, cold: nat, bit: nat, which: nat)

  /** The slot's data is aligned, after the header and the words in front, and before the end of its region. */
  ghost predicate InRegion(s: Slot, pos: nat, front: nat, free: Free) {
    s.align > 0 ==>
      && Aligned(pos, s.align)
      && (if s.hot then front <= pos && pos + s.size <= free.hot else COLD_SIZE <= pos && pos + s.size <= free.cold)
      && s.offset.number == 0 && s.offset.data == if s.hot then Int32(pos) else Complement(Int32(pos))
  }

  /** Presence bits and which-words lie before the free ones. */
  ghost predicate InWords(ts: seq<Field>, s: Slot, firstWhich: nat, free: Free) {
    s.align > 0 ==>
      && (s.bits > 0 && !IsOneof(ts, s) ==> s.offset.bit + s.bits <= free.bit)
      && (IsOneof(ts, s) ==>
         firstWhich <= s.offset.bit && (s.offset.bit - firstWhich) % 4 == 0 && s.offset.bit + 4 <= free.which)
  }

  /** Two slots, the first assigned before the second, share nothing. */
  ghost predicate Apart(ts: seq<Field>, s: Slot, p: nat, t: Slot, q: nat) {
    s.align > 0 && t.align > 0 ==>
      && (s.hot == t.hot ==> p + s.size <= q)
      && (s.bits > 0 && t.bits > 0 && !IsOneof(ts, s) && !IsOneof(ts, t) ==> s.offset.bit + s.bits <= t.offset.bit)
      && (IsOneof(ts, s) && IsOneof(ts, t) ==> s.offset.bit + 4 <= t.offset.bit)
  }

  /** The first |pos| slots have been assigned, at the positions pos. */
  ghost predicate Assigned(ts: seq<Field>, slots: seq<Slot>, pos: seq<nat>, front: nat, firstWhich: nat, free: Free) {
    && |pos| <= |slots|
    && front <= free.hot && COLD_SIZE <= free.cold && firstWhich <= free.which && (free.which - firstWhich) % 4 == 0
    && (forall k :: 0 <= k < |pos| ==>
       InRegion(slots[k], pos[k], front, free) && InWords(ts, slots[k], firstWhich, free))
    && (forall j, k :: 0 <= j < k < |pos| ==> Apart(ts, slots[j], pos[j], slots[k], pos[k]))
  }

  /** The offset of one of a slot's fields. */
  function FieldOffset(ts: seq<Field>, s: Slot, j: nat): Offset
    requires j < |ts|
  {
    if IsOneof(ts, s) then s.offset.(number := ts[j].number) else s.offset
  }

  function SumSizes(slots: seq<Slot>): nat {
    if slots == [] then 0 else slots[0].size + SumSizes(slots[1..])
  }

  /** Storage for one slot. */
  method PlaceSlot(ts: seq<Field>, slot: Slot, front: nat, firstWhich: nat, free: Free)
    returns (r: Slot, ghost pos: nat, next: Free)
    requires slot.align in {0, 1, 2, 4, 8} && slot.offset == NOWHERE
    requires front <= free.hot && COLD_SIZE <= free.cold && firstWhich <= free.which
    requires (free.which - firstWhich) % 4 == 0
    requires free.bit + slot.bits < TWO32 && free.which + 4 < TWO32
    ensures r == slot.(offset := r.offset) && (slot.align == 0 ==> r == slot && next == free) && r.offset.number == 0
    ensures IsOneof(ts, r) == IsOneof(ts, slot)
    ensures InRegion(r, pos, front, next) && InWords(ts, r, firstWhich, next)
    ensures slot.align > 0 ==> (if slot.hot then free.hot else free.cold) <= pos
    ensures slot.align > 0 && slot.bits > 0 && !IsOneof(ts, slot) ==> r.offset.bit == free.bit
    ensures slot.align > 0 && IsOneof(ts, slot) ==> r.offset.bit == free.which
    ensures free.hot <= next.hot && free.cold <= next.cold
    ensures next.hot + next.cold <= free.hot + free.cold + slot.size + 7
    ensures slot.align > 0 ==> (if slot.hot then next.hot else next.cold) == pos + slot.size
    ensures if slot.hot then next.cold == free.cold else next.hot == free.hot
    ensures free.bit <= next.bit <= free.bit + slot.bits
    ensures free.which <= next.which <= free.which + (if IsOneof(ts, slot) then 4 else 0)
    ensures (next.which - firstWhich) % 4 == 0
  {
    r, next, pos := slot, free, 0;
    if slot.align == 0 {
      return;
    }
    var size := if slot.hot then free.hot else free.cold;
    size := size + Padding(size, slot.align);
    pos := size;
    var data := Int32(size);
    if !slot.hot {
      data := Complement(data);
    }
    size := size + slot.size;
    next := if slot.hot then free.(hot := size) else free.(cold := size);
    var bit := 0;
    if slot.bits > 0 {
      bit := free.bit;
      next := next.(bit := (next.bit + slot.bits) % TWO32);
    }
    if IsOneof(ts, slot) {
      bit := free.which;
      next := next.(which := (next.which + 4) % TWO32);
    }
    r := slot.(offset := Offset(bit, data, 0));
  }

  method CopyOffset(ts: seq<Field>, s: Slot, offsets: seq<Offset>) returns (r: seq<Offset>)
    requires |offsets| == |ts| && forall j :: j in s.fields ==> j < |ts|
    ensures |r| == |ts|
    ensures forall j :: 0 <= j < |ts| ==> r[j] == if j in s.fields then FieldOffset(ts, s, j) else offsets[j]
  {
    r := offsets;
    for k := 0 to |s.fields|
      invariant |r| == |ts|
      invariant forall j :: 0 <= j < |ts| ==> r[j] == if j in s.fields[..k] then FieldOffset(ts, s, j) else offsets[j]
    {
      assert s.fields[k] in s.fields;
      assert s.fields[..k + 1] == s.fields[..k] + [s.fields[k]];
      r := r[s.fields[k] := FieldOffset(ts, s, s.fields[k])];
    }
    assert s.fields[..|s.fields|] == s.fields;
  }

  /** The last slot of a region ends it. */
  ghost predicate Ends(slots: seq<Slot>, pos: seq<nat>, free: Free) {
    |pos| <= |slots|
    && (forall k | 0 <= k < |pos| && slots[k].align > 0
             && (forall m :: k < m < |pos| ==> slots[m].hot != slots[k].hot || slots[m].align == 0) ::
          pos[k] + slots[k].size == if slots[k].hot then free.hot else free.cold)
  }

  lemma EndsMore(slots: seq<Slot>, pos: seq<nat>, free: Free, r: Slot, p: nat, next: Free)
    requires Ends(slots, pos, free) && |pos| < |slots|
    requires if r.hot then next.cold == free.cold else next.hot == free.hot
    requires r.align > 0 ==> (if r.hot then next.hot else next.cold) == p + r.size
    requires r.align == 0 ==> next == free
    ensures Ends(slots[|pos| := r], pos + [p], next)
  {
    var slots1, pos1 := slots[|pos| := r], pos + [p];
    forall k | 0 <= k < |pos1| && slots1[k].align > 0
                && (forall m :: k < m < |pos1| ==> slots1[m].hot != slots1[k].hot || slots1[m].align == 0)
      ensures pos1[k] + slots1[k].size == if slots1[k].hot then next.hot else next.cold
    {
      if k < |pos| {
        forall m | k < m < |pos|
          ensures slots[m].hot != slots[k].hot || slots[m].align == 0
        {
          assert slots1[m] == slots[m];
        }
        assert slots1[|pos|] == r;
      }
    }
  }

  lemma PlacedMore(ts: seq<Field>, slots: seq<Slot>, pos: seq<nat>, front: nat, firstWhich: nat, free: Free, r: Slot,
                   p: nat, next: Free)
    requires Assigned(ts, slots, pos, front, firstWhich, free) && |pos| < |slots|
    requires InRegion(r, p, front, next) && InWords(ts, r, firstWhich, next)
    requires r.align > 0 ==> (if r.hot then free.hot else free.cold) <= p
    requires r.align > 0 && r.bits > 0 && !IsOneof(ts, r) ==> r.offset.bit == free.bit
    requires r.align > 0 && IsOneof(ts, r) ==> r.offset.bit == free.which
    requires free.hot <= next.hot && free.cold <= next.cold && free.bit <= next.bit
    requires free.which <= next.which && (next.which - firstWhich) % 4 == 0
    ensures Assigned(ts, slots[|pos| := r], pos + [p], front, firstWhich, next)
  {
    hide IsOneof, Int32, Complement;
    var slots1, pos1 := slots[|pos| := r], pos + [p];
    forall k | 0 <= k < |pos1|
      ensures InRegion(slots1[k], pos1[k], front, next) && InWords(ts, slots1[k], firstWhich, next)
    {
      if k < |pos| {
        assert InRegion(slots[k], pos[k], front, free) && InWords(ts, slots[k], firstWhich, free);
      }
    }
    forall j, k | 0 <= j < k < |pos1|
      ensures Apart(ts, slots1[j], pos1[j], slots1[k], pos1[k])
    {
      assert InRegion(slots[j], pos[j], front, free) && InWords(ts, slots[j], firstWhich, free);
      if k < |pos| {
        assert Apart(ts, slots[j], pos[j], slots[k], pos[k]);
      }
    }
  }

  /** slots with offsets. */
  ghost predicate SameButOffsets(before: seq<Slot>, slots: seq<Slot>) {
    |slots| == |before| && forall k :: 0 <= k < |slots| ==> slots[k] == before[k].(offset := slots[k].offset)
  }

  /** The slots hold different fields. */
  ghost predicate Separate(ts: seq<Field>, slots: seq<Slot>) {
    && (forall k, j: nat :: Holds(slots, k, j) ==> j < |ts|)
    && (forall i, k, j: nat :: Holds(slots, i, j) && Holds(slots, k, j) ==> i == k)
  }

  /** Every field of the first n slots has the offset of its slot, if that has storage. */
  ghost predicate Copied(ts: seq<Field>, slots: seq<Slot>, n: nat, offsets: seq<Offset>) {
    |offsets| == |ts|
    && forall k, j: nat :: k < n && Holds(slots, k, j) && j < |ts| && slots[k].align > 0 ==>
       offsets[j] == FieldOffset(ts, slots[k], j)
  }

  lemma CopiedMore(ts: seq<Field>, slots: seq<Slot>, placed: seq<Slot>, i: nat, r: Slot, offsets: seq<Offset>,
                   offsets1: seq<Offset>)
    requires Separate(ts, slots) && SameButOffsets(slots, placed) && i < |slots| && r == placed[i].(offset := r.offset)
    requires Copied(ts, placed, i, offsets) && |offsets1| == |ts|
    requires forall j :: 0 <= j < |ts| ==>
               offsets1[j] == if r.align > 0 && j in r.fields then FieldOffset(ts, r, j) else offsets[j]
    ensures Copied(ts, placed[i := r], i + 1, offsets1)
  {
    hide FieldOffset;
    var placed1 := placed[i := r];
    forall k, j: nat | k < i + 1 && Holds(placed1, k, j) && j < |ts| && placed1[k].align > 0
      ensures offsets1[j] == FieldOffset(ts, placed1[k], j)
    {
      assert Holds(slots, k, j);
      if k < i {
        assert Holds(placed, k, j);
        assert !Holds(slots, i, j);
      }
    }
  }

  lemma SeparateAt(ts: seq<Field>, slots: seq<Slot>, i: nat)
    requires Separate(ts, slots) && i < |slots|
    ensures forall j :: j in slots[i].fields ==> j < |ts|
  {
    forall j | j in slots[i].fields
      ensures j < |ts|
    {
      assert Holds(slots, i, j);
    }
  }

  /** The loop over all slots. */
  method Place(ts: seq<Field>, slots: seq<Slot>, front: nat, firstWhich: nat)
    returns (placed: seq<Slot>, offsets: seq<Offset>, ghost pos: seq<nat>, free: Free)
    requires Separate(ts, slots)
    requires forall k :: 0 <= k < |slots| ==> slots[k].align in {0, 1, 2, 4, 8} && slots[k].offset == NOWHERE
    requires SumBits(slots) < TWO32 && firstWhich + 4 * CountOneofs(ts, slots) + 4 < TWO32
    ensures SameButOffsets(slots, placed) && |pos| == |placed|
    ensures Assigned(ts, placed, pos, front, firstWhich, free)
    ensures free.bit <= SumBits(slots) && free.which <= firstWhich + 4 * CountOneofs(ts, slots)
    ensures free.hot + free.cold <= front + COLD_SIZE + SumSizes(slots) + 7 * |slots|
    ensures Copied(ts, placed, |placed|, offsets) && Ends(placed, pos, free)
  {
    hide Ends, Assigned, InRegion, InWords, IsOneof, Holds, Copied, Separate, FieldOffset;
    placed, pos := slots, [];
    offsets := seq(|ts|, _ => NOWHERE);
    free := Free(front, COLD_SIZE, 0, firstWhich);
    NonePlaced(ts, slots, front, firstWhich, offsets);
    for i := 0 to |slots|
      invariant SameButOffsets(slots, placed) && |pos| == i && |offsets| == |ts|
      invariant forall k :: i <= k < |slots| ==> placed[k] == slots[k]
      invariant Copied(ts, placed, i, offsets) && Ends(placed, pos, free)
      invariant Assigned(ts, placed, pos, front, firstWhich, free)
      invariant free.bit + SumBits(slots[i..]) <= SumBits(slots)
      invariant free.which + 4 * CountOneofs(ts, slots[i..]) <= firstWhich + 4 * CountOneofs(ts, slots)
      invariant free.hot + free.cold + SumSizes(slots[i..]) <= front + COLD_SIZE + SumSizes(slots) + 7 * i
    {
      assert slots[i..][1..] == slots[i + 1..];
      AssignedBounds(ts, placed, pos, front, firstWhich, free);
      var r, p, next := PlaceSlot(ts, placed[i], front, firstWhich, free);
      PlacedMore(ts, placed, pos, front, firstWhich, free, r, p, next);
      EndsMore(placed, pos, free, r, p, next);
      SeparateAt(ts, slots, i);
      ghost var offsets0 := offsets;
      if r.align > 0 {
        offsets := CopyOffset(ts, r, offsets);
      }
      CopiedMore(ts, slots, placed, i, r, offsets0, offsets);
      placed, pos, free := placed[i := r], pos + [p], next;
    }
  }

  lemma NonePlaced(ts: seq<Field>, slots: seq<Slot>, front: nat, firstWhich: nat, offsets: seq<Offset>)
    requires |offsets| == |ts|
    ensures Assigned(ts, slots, [], front, firstWhich, Free(front, COLD_SIZE, 0, firstWhich))
    ensures Copied(ts, slots, 0, offsets) && Ends(slots, [], Free(front, COLD_SIZE, 0, firstWhich))
  {
  }

  lemma AssignedBounds(ts: seq<Field>, slots: seq<Slot>, pos: seq<nat>, front: nat, firstWhich: nat, free: Free)
    requires Assigned(ts, slots, pos, front, firstWhich, free)
    ensures front <= free.hot && COLD_SIZE <= free.cold && firstWhich <= free.which
    ensures (free.which - firstWhich) % 4 == 0
  {
  }

  // ----- The layout of a struct -----

  /**
   The struct of a message type: its slots, where each field is, the sizes of its two regions, and how many words
   it has for presence bits and for oneofs.
   */
  datatype Struct = Struct(slots: seq<Slot>, offsets: seq<Offset>, hot: nat, cold: nat, bitWords: nat, whichWords: nat)

  /** Where a field's data starts in its region: cold offsets are recovered by complement. */
  function Start(o: Offset): int {
    if o.data >= 0 then o.data else Complement(o.data)
  }

  function WordsAt(r: Struct): nat {
    MESSAGE_SIZE + 4 * r.bitWords
  }

  function DataAt(r: Struct): nat {
    WordsAt(r) + 4 * r.whichWords
  }

  /** The data has an aligned range of its region, after the header and the words. */
  ghost predicate DataStored(f: Field, o: Offset, r: Struct) {
    && Aligned(Start(o), f.align)
    && (if o.data >= 0 then DataAt(r) <= Start(o) && Start(o) + f.size <= r.hot
        else COLD_SIZE <= Start(o) && Start(o) + f.size <= r.cold)
  }

  /** The presence bits and the which-word are among the words for them; only members of oneofs have a number. */
  ghost predicate WordsStored(f: Field, o: Offset, r: Struct) {
    && (f.bits > 0 ==> o.bit + f.bits <= 32 * r.bitWords)
    && (f.oneof.Some? ==> WordsAt(r) <= o.bit && o.bit + 4 <= DataAt(r) && (o.bit - WordsAt(r)) % 4 == 0)
    && o.number == if f.oneof.Some? then f.number else 0
  }

  ghost predicate Stored(ts: seq<Field>, r: Struct, j: nat)
    requires j < |ts| == |r.offsets|
  {
    ts[j].align > 0 ==> DataStored(ts[j], r.offsets[j], r) && WordsStored(ts[j], r.offsets[j], r)
  }

  /** Members of a oneof share their storage; other fields share no byte, no presence bit and no which-word. */
  ghost predicate Disjoint(ts: seq<Field>, r: Struct, i: nat, j: nat)
    requires i < |ts| == |r.offsets| && j < |ts|
  {
    var o, q := r.offsets[i], r.offsets[j];
    ts[i].align > 0 && ts[j].align > 0 ==>
      if Same(ts, i, j) then o.data == q.data && o.bit == q.bit
      else
        && ((o.data >= 0) == (q.data >= 0) ==> Start(o) + ts[i].size <= Start(q) || Start(q) + ts[j].size <= Start(o))
        && (ts[i].bits > 0 && ts[j].bits > 0 ==> o.bit + ts[i].bits <= q.bit || q.bit + ts[j].bits <= o.bit)
        && (ts[i].oneof.Some? && ts[j].oneof.Some? ==> o.bit + 4 <= q.bit || q.bit + 4 <= o.bit)
  }

  ghost predicate Sound(ts: seq<Field>, r: Struct) {
    && |r.offsets| == |ts| && r.hot % 8 == 0 && r.cold % 8 == 0
    && (forall j :: 0 <= j < |ts| ==> Stored(ts, r, j))
    && (forall i, j :: 0 <= i < |ts| && 0 <= j < |ts| ==> Disjoint(ts, r, i, j))
  }

  /** What the steps of the layout establish about the slots, the last two of which are hidden. */
  ghost predicate Laid(ts: seq<Field>, placed: seq<Slot>, pos: seq<nat>, offsets: seq<Offset>, free: Free, r: Struct) {
    && |pos| == |placed| == |r.slots| + 2 && r.slots == placed[..|r.slots|]
    && Grouped(ts, r.slots, |ts|)
    && (forall k :: 0 <= k < |r.slots| ==> Measured(ts, r.slots[k].(offset := NOWHERE)))
    && Assigned(ts, placed, pos, DataAt(r), WordsAt(r), free) && Ends(placed, pos, free)
    && Copied(ts, placed, |placed|, offsets)
    && free.bit <= 32 * r.bitWords && free.which <= DataAt(r)
    && r.offsets == offsets && r.hot == free.hot <= MAX_INT32 && r.cold == free.cold <= MAX_INT32
  }

  /** After n slots come the hidden ones, of no size and alignment 8, one in each region. */
  ghost predicate HiddenLast(placed: seq<Slot>, n: nat) {
    && |placed| == n + 2 && placed[n].hot && !placed[n + 1].hot
    && placed[n].align == placed[n + 1].align == 8 && placed[n].size == placed[n + 1].size == 0
  }

  /**
   Stored fields are on the side of their slots, recognized by the sign of the offset, and the data of the slots of one
   side follow each other in the order of the slots.
   */
  ghost predicate Arranged(ts: seq<Field>, r: Struct) {
    && |r.offsets| == |ts|
    && (forall k, j: nat :: Holds(r.slots, k, j) && j < |ts| && ts[j].align > 0 ==>
          (r.offsets[j].data >= 0 <==> r.slots[k].hot))
    && (forall k, l, i: nat, j: nat :: k < l && Holds(r.slots, k, i) && Holds(r.slots, l, j) && i < |ts| && j < |ts| ==>
          ts[i].align > 0 && ts[j].align > 0 && r.slots[k].hot == r.slots[l].hot ==>
          Start(r.offsets[i]) + r.slots[k].size <= Start(r.offsets[j]))
  }

  lemma SlotAt(ts: seq<Field>, placed: seq<Slot>, pos: seq<nat>, offsets: seq<Offset>, free: Free, r: Struct, k: nat,
               j: nat)
    requires Laid(ts, placed, pos, offsets, free, r) && Holds(r.slots, k, j) && j < |ts| && ts[j].align > 0
    ensures k < |pos| && |r.offsets| == |ts| && k < |r.slots| && placed[k] == r.slots[k] && placed[k].align > 0
    ensures Start(r.offsets[j]) == pos[k] && (r.offsets[j].data >= 0 <==> r.slots[k].hot)
  {
    hide InWords, Apart, FieldOffset, Ends, Start, Grouped;
    assert Holds(placed, k, j);
    assert Measured(ts, r.slots[k].(offset := NOWHERE));
    assert InRegion(placed[k], pos[k], DataAt(r), free);
    hide InRegion;
    StartExact(ts, placed[k], pos[k], DataAt(r), free, j);
  }

  lemma LaidArranged(ts: seq<Field>, placed: seq<Slot>, pos: seq<nat>, offsets: seq<Offset>, free: Free, r: Struct)
    requires Laid(ts, placed, pos, offsets, free, r)
    ensures Arranged(ts, r)
  {
    hide Laid, Start, IsOneof;
    LaidSizes(ts, placed, pos, offsets, free, r);
    forall k, j: nat | Holds(r.slots, k, j) && j < |ts| && ts[j].align > 0
      ensures r.offsets[j].data >= 0 <==> r.slots[k].hot
    {
      SlotAt(ts, placed, pos, offsets, free, r, k, j);
    }
    forall k, l, i: nat, j: nat |
      k < l && Holds(r.slots, k, i) && Holds(r.slots, l, j) && i < |ts| && j < |ts| && ts[i].align > 0
        && ts[j].align > 0
      ensures r.slots[k].hot == r.slots[l].hot ==> Start(r.offsets[i]) + r.slots[k].size <= Start(r.offsets[j])
    {
      SlotAt(ts, placed, pos, offsets, free, r, k, i);
      SlotAt(ts, placed, pos, offsets, free, r, l, j);
      ApartAt(ts, placed, pos, DataAt(r), WordsAt(r), free, k, l);
    }
  }

  /** The slot of a stored field, and what is known of it. */
  lemma SlotOf(ts: seq<Field>, placed: seq<Slot>, pos: seq<nat>, offsets: seq<Offset>, free: Free, r: Struct, j: nat)
    returns (k: nat)
    requires FieldsOk(ts) && Laid(ts, placed, pos, offsets, free, r) && j < |ts| && ts[j].align > 0
    ensures k < |r.slots| && Holds(r.slots, k, j) && placed[k] == r.slots[k]
    ensures placed[k].align in {1, 2, 4, 8} && ts[j].align <= placed[k].align
    ensures ts[j].size <= placed[k].size && ts[j].bits <= placed[k].bits
    ensures |offsets| == |ts| && offsets[j] == FieldOffset(ts, placed[k], j)
    ensures IsOneof(ts, placed[k]) <==> ts[j].oneof.Some?
    ensures InRegion(placed[k], pos[k], DataAt(r), free) && InWords(ts, placed[k], WordsAt(r), free)
  {
    hide FieldsOk, InRegion, InWords, Apart, FieldOffset, Ends;
    assert Held(r.slots, j);
    k :| Holds(r.slots, k, j);
    assert Holds(placed, k, j);
    assert Measured(ts, r.slots[k].(offset := NOWHERE));
    var first := placed[k].fields[0];
    assert Holds(r.slots, k, first);
  }

  lemma StoredAt(ts: seq<Field>, placed: seq<Slot>, pos: seq<nat>, offsets: seq<Offset>, free: Free, r: Struct, j: nat)
    requires FieldsOk(ts) && Laid(ts, placed, pos, offsets, free, r) && j < |ts| == |r.offsets|
    ensures Stored(ts, r, j)
  {
    hide FieldsOk, Laid, InRegion, InWords, FieldOffset, IsOneof, Start, Holds, DataStored, WordsStored;
    if ts[j].align > 0 {
      FieldAt(ts, j);
      LaidSizes(ts, placed, pos, offsets, free, r);
      var k := SlotOf(ts, placed, pos, offsets, free, r, j);
      DataInRange(ts, placed[k], pos[k], free, r, j);
      WordsInRange(ts, placed[k], pos[k], free, r, j);
    }
  }

  lemma DataInRange(ts: seq<Field>, s: Slot, pos: nat, free: Free, r: Struct, j: nat)
    requires j < |ts| && s.align in {1, 2, 4, 8} && ts[j].align in {1, 2, 4, 8} && ts[j].align <= s.align
    requires ts[j].size <= s.size
    requires InRegion(s, pos, DataAt(r), free) && r.hot == free.hot <= MAX_INT32 && r.cold == free.cold <= MAX_INT32
    ensures DataStored(ts[j], FieldOffset(ts, s, j), r)
  {
    hide Start, FieldOffset, DataAt;
    StartExact(ts, s, pos, DataAt(r), free, j);
    AlignedLess(pos, ts[j].align, s.align);
  }

  lemma AlignedLess(p: int, a: nat, b: nat)
    requires a in {1, 2, 4, 8} && b in {1, 2, 4, 8} && a <= b && Aligned(p, b)
    ensures Aligned(p, a)
  {
  }

  lemma WordsInRange(ts: seq<Field>, s: Slot, pos: nat, free: Free, r: Struct, j: nat)
    requires j < |ts| && s.align > 0 && ts[j].bits <= s.bits && (ts[j].oneof.Some? ==> ts[j].bits == 0)
    requires InRegion(s, pos, DataAt(r), free) && InWords(ts, s, WordsAt(r), free)
    requires IsOneof(ts, s) <==> ts[j].oneof.Some?
    requires free.hot <= MAX_INT32 && free.cold <= MAX_INT32 && free.bit <= 32 * r.bitWords && free.which <= DataAt(r)
    ensures WordsStored(ts[j], FieldOffset(ts, s, j), r)
  {
    hide InRegion, IsOneof, Start, FieldOffset, DataAt, WordsAt;
    StartExact(ts, s, pos, DataAt(r), free, j);
  }

  /** Offsets in regions that are not too large are not truncated. */
  lemma StartExact(ts: seq<Field>, s: Slot, pos: nat, front: nat, free: Free, j: nat)
    requires InRegion(s, pos, front, free) && s.align > 0 && free.hot <= MAX_INT32 && free.cold <= MAX_INT32 && j < |ts|
    ensures FieldOffset(ts, s, j).number == if IsOneof(ts, s) then ts[j].number else 0
    ensures Start(FieldOffset(ts, s, j)) == pos && (FieldOffset(ts, s, j).data >= 0 <==> s.hot)
    ensures FieldOffset(ts, s, j).bit == s.offset.bit && FieldOffset(ts, s, j).data == s.offset.data
  {
    hide IsOneof;
  }

  lemma LaidSizes(ts: seq<Field>, placed: seq<Slot>, pos: seq<nat>, offsets: seq<Offset>, free: Free, r: Struct)
    requires Laid(ts, placed, pos, offsets, free, r)
    ensures |pos| == |placed| == |r.slots| + 2 && Grouped(ts, r.slots, |ts|)
    ensures r.offsets == offsets && |offsets| == |ts|
    ensures r.hot == free.hot <= MAX_INT32 && r.cold == free.cold <= MAX_INT32
    ensures free.bit <= 32 * r.bitWords && free.which <= DataAt(r)
    ensures Assigned(ts, placed, pos, DataAt(r), WordsAt(r), free)
  {
  }

  lemma FieldAt(ts: seq<Field>, j: nat)
    requires FieldsOk(ts) && j < |ts|
    ensures FieldOk(ts[j])
  {
  }

  lemma DisjointAt(ts: seq<Field>, placed: seq<Slot>, pos: seq<nat>, offsets: seq<Offset>, free: Free, r: Struct,
                   i: nat, j: nat)
    requires FieldsOk(ts) && Laid(ts, placed, pos, offsets, free, r) && i < |ts| == |r.offsets| && j < |ts|
    ensures Disjoint(ts, r, i, j)
  {
    hide FieldsOk, Laid, IsOneof, Same, InWords, InRegion, FieldOffset, Start, Holds;
    if ts[i].align > 0 && ts[j].align > 0 {
      FieldAt(ts, i);
      FieldAt(ts, j);
      LaidSizes(ts, placed, pos, offsets, free, r);
      var k := SlotOf(ts, placed, pos, offsets, free, r, i);
      var l := SlotOf(ts, placed, pos, offsets, free, r, j);
      StartExact(ts, placed[k], pos[k], DataAt(r), free, i);
      StartExact(ts, placed[l], pos[l], DataAt(r), free, j);
      SameSlot(ts, r.slots, k, l, i, j);
      if k < l {
        ApartAt(ts, placed, pos, DataAt(r), WordsAt(r), free, k, l);
      } else if l < k {
        ApartAt(ts, placed, pos, DataAt(r), WordsAt(r), free, l, k);
      }
    }
  }

  lemma SameSlot(ts: seq<Field>, slots: seq<Slot>, k: nat, l: nat, i: nat, j: nat)
    requires Grouped(ts, slots, |ts|) && i < |ts| && j < |ts| && Holds(slots, k, i) && Holds(slots, l, j)
    ensures k == l <==> Same(ts, i, j)
  {
  }

  lemma ApartAt(ts: seq<Field>, slots: seq<Slot>, pos: seq<nat>, front: nat, firstWhich: nat, free: Free, j: nat,
                k: nat)
    requires Assigned(ts, slots, pos, front, firstWhich, free) && j < k < |pos|
    ensures Apart(ts, slots[j], pos[j], slots[k], pos[k])
  {
  }

  /** The hidden slots end the regions at multiples of 8. */
  lemma EndAligned(ts: seq<Field>, placed: seq<Slot>, pos: seq<nat>, offsets: seq<Offset>, free: Free, r: Struct)
    requires Laid(ts, placed, pos, offsets, free, r)
    requires HiddenLast(placed, |r.slots|)
    ensures r.hot % 8 == 0 && r.cold % 8 == 0
  {
    hide Grouped, Measured, Copied, Apart, InWords;
    var n := |r.slots|;
    assert InRegion(placed[n], pos[n], DataAt(r), free);
    assert InRegion(placed[n + 1], pos[n + 1], DataAt(r), free);
  }

  lemma LaidSound(ts: seq<Field>, placed: seq<Slot>, pos: seq<nat>, offsets: seq<Offset>, free: Free, r: Struct)
    requires FieldsOk(ts) && Laid(ts, placed, pos, offsets, free, r)
    requires HiddenLast(placed, |r.slots|)
    ensures Sound(ts, r)
  {
    hide FieldsOk, Stored, Disjoint, Grouped, Measured, Assigned, Ends;
    EndAligned(ts, placed, pos, offsets, free, r);
    forall j | 0 <= j < |ts|
      ensures Stored(ts, r, j)
    {
      StoredAt(ts, placed, pos, offsets, free, r, j);
    }
    forall i, j | 0 <= i < |ts| && 0 <= j < |ts|
      ensures Disjoint(ts, r, i, j)
    {
      DisjointAt(ts, placed, pos, offsets, free, r, i, j);
    }
  }

  /** Offsets do not change the grouping, the sizes or the sums. */
  lemma {:induction false} SameSums(ts: seq<Field>, before: seq<Slot>, slots: seq<Slot>)
    requires SameButOffsets(before, slots)
    ensures SumBits(slots) == SumBits(before) && CountOneofs(ts, slots) == CountOneofs(ts, before)
    ensures SumSizes(slots) == SumSizes(before)
  {
    if slots != [] {
      SameSums(ts, before[1..], slots[1..]);
    }
  }

  lemma SameGroups(ts: seq<Field>, before: seq<Slot>, slots: seq<Slot>)
    requires SameButOffsets(before, slots) && Grouped(ts, before, |ts|)
    requires forall k :: 0 <= k < |before| ==> Measured(ts, before[k])
    ensures Grouped(ts, slots, |ts|)
    ensures forall k :: 0 <= k < |slots| ==> Measured(ts, slots[k].(offset := NOWHERE))
  {
    hide Measured;
    MeasuredGrouped(ts, before, slots);
    forall k | 0 <= k < |slots|
      ensures Measured(ts, slots[k].(offset := NOWHERE))
    {
      MeasuredNowhere(ts, before[k]);
      assert slots[k].(offset := NOWHERE) == before[k];
    }
  }

  lemma MeasuredNowhere(ts: seq<Field>, s: Slot)
    requires Measured(ts, s)
    ensures s.offset == NOWHERE && s.align in {0, 1, 2, 4, 8}
  {
  }

  const HIDDEN := [Slot([], 0, 8, 0, true, NOWHERE), Slot([], 0, 8, 0, false, NOWHERE)]

  lemma HiddenSums(ts: seq<Field>)
    ensures SumBits(HIDDEN) == CountOneofs(ts, HIDDEN) == SumSizes(HIDDEN) == 0
  {
    var a, b := HIDDEN[0], HIDDEN[1];
    assert HIDDEN == [a] + [b];
    SumsAppend(ts, [a], [b]);
    SizesAppend([a], [b]);
    assert [a][1..] == [b][1..] == [];
  }

  lemma HiddenAdded(ts: seq<Field>, sorted: seq<Slot>)
    requires Grouped(ts, sorted, |ts|) && forall k :: 0 <= k < |sorted| ==> Measured(ts, sorted[k])
    ensures var slots := sorted + HIDDEN;
            && Separate(ts, slots)
            && SumBits(slots) == SumBits(sorted) && CountOneofs(ts, slots) == CountOneofs(ts, sorted)
            && SumSizes(slots) == SumSizes(sorted)
            && (forall k :: 0 <= k < |slots| ==> slots[k].align in {0, 1, 2, 4, 8} && slots[k].offset == NOWHERE)
  {
    hide SumBits, SumSizes, CountOneofs, Same;
    SumsAppend(ts, sorted, HIDDEN);
    SizesAppend(sorted, HIDDEN);
    HiddenSums(ts);
    assert forall k, j: nat :: Holds(sorted + HIDDEN, k, j) ==> Holds(sorted, k, j);
    forall k | 0 <= k < |sorted|
      ensures sorted[k].align in {0, 1, 2, 4, 8} && sorted[k].offset == NOWHERE
    {
      MeasuredNowhere(ts, sorted[k]);
    }
  }

  lemma {:induction false} SizesAppend(a: seq<Slot>, b: seq<Slot>)
    ensures SumSizes(a + b) == SumSizes(a) + SumSizes(b)
  {
    if a == [] {
      assert a + b == b;
    } else {
      SizesAppend(a[1..], b);
      assert (a + b)[1..] == a[1..] + b;
    }
  }

  lemma SortedMeasured(ts: seq<Field>, slots: seq<Slot>, sorted: seq<Slot>, perm: seq<nat>)
    requires StableSorted(slots, sorted, perm) && forall k :: 0 <= k < |slots| ==> Measured(ts, slots[k])
    ensures |sorted| == |slots| && forall k :: 0 <= k < |sorted| ==> Measured(ts, sorted[k])
  {
    hide Measured, InOrder;
  }

  /** doLayout; `panics` when a region outgrows 32-bit offsets. isHot stands for the mean decode probability. */
  method DoLayout(ts: seq<Field>, isHot: seq<nat> -> bool) returns (r: Struct, panics: bool)
    requires FieldsOk(ts)
    ensures Grouped(ts, r.slots, |ts|)
    ensures forall k :: 0 <= k < |r.slots| ==> Measured(ts, r.slots[k].(offset := NOWHERE))
    ensures panics <==> r.hot > MAX_INT32 || r.cold > MAX_INT32
    ensures Sided(r.slots, isHot) && Ordered(r.slots)
    ensures !panics ==> Sound(ts, r) && Arranged(ts, r)
    ensures SumBits(r.slots) <= 32 * r.bitWords < SumBits(r.slots) + 32 && r.whichWords == CountOneofs(ts, r.slots)
    ensures r.hot + r.cold <= DataAt(r) + COLD_SIZE + SumSizes(r.slots) + 7 * (|r.slots| + 2)
  {
    hide FieldsOk, Grouped, Measured, StableSorted, Separate, Sound, SameButOffsets, Assigned, Ends, Copied, SumBits;
    hide CountOneofs, SumSizes, Sided, Ordered, Listed, Arranged;
    var groups := Group(ts);
    FieldCount(ts);
    var ms, bits, whichWords := Measure(ts, groups, isHot);
    MeasuredGrouped(ts, groups, ms);
    MeasuredListed(groups, ms);
    var sorted, perm := StableSort(ts, ms);
    SortedGrouped(ts, ms, sorted, perm);
    SortedMeasured(ts, ms, sorted, perm);
    SortedSided(ms, sorted, perm, isHot);
    SortedOrdered(ms, sorted, perm);
    HiddenAdded(ts, sorted);
    var slots := sorted + HIDDEN;
    var bitWords := (bits + 31) / 32;
    var front := MESSAGE_SIZE + (bitWords + whichWords) * 4;
    var firstWhich := (front - whichWords * 4) % TWO32;
    var placed, offsets, pos, free := Place(ts, slots, front, firstWhich);
    HiddenStays(slots, placed, sorted);
    r := Struct(placed[..|sorted|], offsets, free.hot, free.cold, bitWords, whichWords);
    panics := free.hot > MAX_INT32 || free.cold > MAX_INT32;
    SameSums(ts, sorted, r.slots);
    SameGroups(ts, sorted, r.slots);
    SameSides(sorted, r.slots, isHot);
    if !panics {
      LaidSound(ts, placed, pos, offsets, free, r);
      LaidArranged(ts, placed, pos, offsets, free, r);
    }
  }

  lemma SameSides(before: seq<Slot>, slots: seq<Slot>, isHot: seq<nat> -> bool)
    requires SameButOffsets(before, slots) && Sided(before, isHot) && Ordered(before)
    ensures Sided(slots, isHot) && Ordered(slots)
  {
  }

  lemma MeasuredListed(slots: seq<Slot>, ms: seq<Slot>)
    requires Listed(slots) && |ms| == |slots| && forall s :: 0 <= s < |ms| ==> ms[s].fields == slots[s].fields
    ensures Listed(ms)
  {
  }

  lemma FieldCount(ts: seq<Field>)
    requires FieldsOk(ts)
    ensures |ts| < 0x2000_0000
  {
  }

  lemma HiddenStays(slots: seq<Slot>, placed: seq<Slot>, sorted: seq<Slot>)
    requires slots == sorted + HIDDEN && SameButOffsets(slots, placed)
    ensures |placed| == |sorted| + 2 && SameButOffsets(sorted, placed[..|sorted|])
    ensures HiddenLast(placed, |sorted|)
  {
  }
}
