/**
 Repeated numbers: empty, borrowed from the input, or on the arena (internal/tdp/thunks/repeated.go and
 internal/tdp/repeated/scalars.go).
 */
module Repeated {
  import opened A = Arena
  import opened ArenaNumbers
  import opened ArenaSize
  import opened ArenaSlice
  import opened Base128
  import opened Bits
  import opened VarintCount
  import opened VmRecords
  import opened Wire
  import opened Wrappers
  import opened Words
  import N = Numbers

  // ----- Addresses -----

  /** The sign bit of an address. */
  const SIGN: nat := 0x8000_0000_0000_0000

  /** ^p. */
  function Flip(p: nat): nat
    requires p < TWO64
  {
    TWO64 - 1 - p
  }

  /** OffArena: the address of memory that is not the arena's is stored with all bits flipped. */
  function OffArena(p: nat): nat
    requires p < TWO64
  {
    Flip(p)
  }

  /** ClearSignBit: flips all bits back if the sign bit is set. */
  function ClearSignBit(p: nat): nat
    requires p < TWO64
  {
    if p >= SIGN then Flip(p) else p
  }

  /**
   Addresses have no sign bit, so one word tells the three states of a field apart, zero, a borrowed address and an
   address on the arena, and gives the address back.
   */
  lemma StatesApart(borrowed: nat, onArena: nat)
    requires borrowed < SIGN && 0 < onArena < SIGN
    ensures OffArena(borrowed) >= SIGN && ClearSignBit(OffArena(borrowed)) == borrowed
    ensures !(onArena >= SIGN) && onArena != 0 && ClearSignBit(onArena) == onArena
  {
  }

  lemma {:induction false} TruncSmall(s: seq<nat>, m: nat)
    requires m > 0 && forall i :: 0 <= i < |s| ==> s[i] < m
    ensures Trunc(s, m) == s
  {
    if s != [] {
      ModUnique(s[0], 0, s[0], m);
      TruncSmall(s[1..], m);
    }
  }

  // ----- The decode loops -----

  /** Slice r is slice s with the values, truncated, after its elements, and nothing else has changed. */
  ghost predicate Decoded(live: seq<Region>, before: seq<byte>, after: seq<byte>, values: seq<nat>, elem: nat, s: Slice,
                          r: Slice, at: nat)
    requires elem > 0
  {
    && Owns(live, at, r, elem) && r == s.(len := s.len + |values|)
    && Elements(after, r, elem) == Elements(before, s, elem) + Trunc(values, Limit(elem))
    && Steady(live, live, at, before, after)
  }

  /** The same but for the values in rest, which are still to come and for which there is room. */
  ghost predicate Undecoded(live: seq<Region>, before: seq<byte>, after: seq<byte>, rest: seq<nat>, values: seq<nat>,
                            elem: nat, s: Slice, r: Slice, at: nat)
    requires elem > 0
  {
    && Owns(live, at, r, elem) && r == s.(len := r.len) && r.len + |rest| == s.len + |values| <= s.cap
    && Elements(after, r, elem) + Trunc(rest, Limit(elem)) == Elements(before, s, elem) + Trunc(values, Limit(elem))
    && Steady(live, live, at, before, after)
  }

  /** There is room in s for the varints from p to e. */
  ghost predicate CanDecode(a: Arena, src: seq<byte>, p: nat, e: nat, elem: nat, s: Slice, at: nat)
    reads a, a.mem
  {
    && a.Valid() && elem in {1, 4, 8} && Owns(a.live, at, s, elem) && s.cap < TWO32
    && p < e && e + PADDING <= |src| && Varints(src, p, e).Some? && s.len + |Varints(src, p, e).value| <= s.cap
  }

  /** *p = T(x), and the next position. */
  method StoreValue(a: Arena, elem: nat, r: Slice, x: nat, ghost at: nat, ghost before: seq<byte>, ghost s: Slice,
                    ghost rest: seq<nat>, ghost values: seq<nat>)
    returns (r1: Slice)
    requires a.Valid() && elem > 0 && s.cap < TWO32
    requires Undecoded(a.live, before, a.mem[..], [x] + rest, values, elem, s, r, at)
    modifies a.mem
    ensures a.Valid() && Undecoded(a.live, before, a.mem[..], rest, values, elem, s, r1, at)
  {
    hide Trunc, Elements, Steady, Limit, Owns, Arena.Valid;
    ghost var mid := a.mem[..];
    r1 := StoreNumber(a, elem, r, x % Limit(elem), at);
    StoreStep(Elements(mid, r, elem), Elements(a.mem[..], r1, elem), x, rest, Limit(elem));
    SteadyTrans(a.live, a.live, a.live, at, at, before, mid, a.mem[..]);
  }

  /** Storing a value and moving on keeps the elements stored so far and those to come. */
  lemma StoreStep(before: seq<nat>, after: seq<nat>, v: nat, rest: seq<nat>, m: nat)
    requires m > 0 && after == before + [v % m]
    ensures after + Trunc(rest, m) == before + Trunc([v] + rest, m)
  {
    assert ([v] + rest)[1..] == rest;
  }

  /** Every varint is one byte. */
  method DecodeSmall(a: Arena, src: seq<byte>, ptr: nat, e: nat, elem: nat, s: Slice, ghost at: nat) returns (r: Slice)
    requires CanDecode(a, src, ptr, e, elem, s, at)
    requires forall i :: ptr <= i < e ==> !More(src[i])
    modifies a.mem
    ensures a.Valid() && Decoded(a.live, old(a.mem[..]), a.mem[..], Varints(src, ptr, e).value, elem, s, r, at)
  {
    hide Varints, VarintIn, More, Trunc, Elements, Steady, Limit, Owns, Arena.Valid;
    var p := ptr;
    r := s;
    SteadySame(a.live, at, a.mem[..]);
    while true
      invariant a.Valid() && ptr <= p < e && Varints(src, p, e).Some?
      invariant Undecoded(a.live, old(a.mem[..]), a.mem[..], Varints(src, p, e).value, Varints(src, ptr, e).value, elem,
                s, r, at)
      decreases e - p
    {
      VarintsStep(src, p, e);
      OneByte(src, p, e);
      ghost var rest, all := Varints(src, p + 1, e).value, Varints(src, ptr, e).value;
      r := StoreValue(a, elem, r, src[p] as nat, at, old(a.mem[..]), s, rest, all);
      p := p + 1;
      if p == e {
        break;
      }
    }
    NoVarints(src, e, Limit(elem));
  }

  /** One and two-byte varints are decoded in place. */
  method DecodeMixed(a: Arena, src: seq<byte>, ptr: nat, e: nat, elem: nat, s: Slice, ghost at: nat) returns (r: Slice)
    requires CanDecode(a, src, ptr, e, elem, s, at)
    modifies a.mem
    ensures a.Valid() && Decoded(a.live, old(a.mem[..]), a.mem[..], Varints(src, ptr, e).value, elem, s, r, at)
  {
    hide Varints, VarintIn, VarintAt, More, Low7, Trunc, Elements, Steady, Limit, Owns, Arena.Valid;
    var p := ptr;
    r := s;
    SteadySame(a.live, at, a.mem[..]);
    while true
      invariant a.Valid() && ptr <= p < e && Varints(src, p, e).Some?
      invariant Undecoded(a.live, old(a.mem[..]), a.mem[..], Varints(src, p, e).value, Varints(src, ptr, e).value, elem,
                s, r, at)
      decreases e - p
    {
      VarintsStep(src, p, e);
      var x, q := DecodeOne(src, p, e);
      ghost var rest, all := Varints(src, q, e).value, Varints(src, ptr, e).value;
      r := StoreValue(a, elem, r, x, at, old(a.mem[..]), s, rest, all);
      p := q;
      if p == e {
        break;
      }
    }
    NoVarints(src, e, Limit(elem));
  }

  /** One varint of the mixed loop. */
  method DecodeOne(src: seq<byte>, p: nat, e: nat) returns (x: nat, q: nat)
    requires p < e && e + PADDING <= |src| && VarintIn(src, p, e, 10).Some?
    ensures (x, q) == VarintIn(src, p, e, 10).value
  {
    hide VarintIn, VarintAt, More, Low7;
    if !More(src[p]) {
      OneByte(src, p, e);
      return src[p] as nat, p + 1;
    }
    if p + 1 != e && !More(src[p + 1]) {
      TwoBytes(src, p, e);
      return Low7(src[p]) + 128 * (src[p + 1] as nat), p + 2;
    }
    VarintMeets(src, p, e, 10);
    var r := ParseVarint(src, p, e);
    return r.value, r.ptr;
  }

  /** Every varint is decoded by parseVarint. */
  method DecodeLarge(a: Arena, src: seq<byte>, ptr: nat, e: nat, elem: nat, s: Slice, ghost at: nat) returns (r: Slice)
    requires CanDecode(a, src, ptr, e, elem, s, at)
    modifies a.mem
    ensures a.Valid() && Decoded(a.live, old(a.mem[..]), a.mem[..], Varints(src, ptr, e).value, elem, s, r, at)
  {
    hide Varints, VarintIn, VarintAt, Trunc, Elements, Steady, Limit, Owns, Arena.Valid;
    var p := ptr;
    r := s;
    SteadySame(a.live, at, a.mem[..]);
    while true
      invariant a.Valid() && ptr <= p < e && Varints(src, p, e).Some?
      invariant Undecoded(a.live, old(a.mem[..]), a.mem[..], Varints(src, p, e).value, Varints(src, ptr, e).value, elem,
                s, r, at)
      decreases e - p
    {
      VarintsStep(src, p, e);
      VarintMeets(src, p, e, 10);
      var v := ParseVarint(src, p, e);
      ghost var rest, all := Varints(src, v.ptr, e).value, Varints(src, ptr, e).value;
      r := StoreValue(a, elem, r, v.value, at, old(a.mem[..]), s, rest, all);
      p := v.ptr;
      if p == e {
        break;
      }
    }
    NoVarints(src, e, Limit(elem));
  }

  lemma NoVarints(src: seq<byte>, e: nat, m: nat)
    requires e + PADDING <= |src| && m > 0
    ensures Varints(src, e, e) == Some([]) && Trunc([], m) == []
  {
  }

  // ----- Runs of records -----

  /** The body of a record from start on, in a message that goes on to end: packed values or a single one. */
  datatype Record = Record(packed: bool, start: nat, end: nat)

  predicate InInput(src: seq<byte>, r: Record) {
    r.start <= r.end < TWO64 && r.end + PADDING <= |src| && (r.packed ==> BytesIn(src, r.start, r.end).Some?)
  }

  /** How many numbers of n bytes there are from s to z. */
  function CountOf(s: nat, z: nat, n: nat): nat
    requires s <= z && n > 0
  {
    (z - s) / n
  }

  /** A record of varints that is well formed. */
  predicate VarintsOk(src: seq<byte>, r: Record) {
    && InInput(src, r)
    && (if r.packed then Varints(src, BytesIn(src, r.start, r.end).value.0, BytesIn(src, r.start, r.end).value.1).Some?
        else VarintIn(src, r.start, r.end, 10).Some?)
  }

  /** A record of numbers of a fixed size that is not cut short. */
  predicate FixedOk(src: seq<byte>, r: Record, elem: nat)
    requires InInput(src, r) && elem > 0
  {
    if r.packed then (BytesIn(src, r.start, r.end).value.1 - BytesIn(src, r.start, r.end).value.0) % elem == 0
    else r.start + elem <= r.end
  }

  function VarintsOf(src: seq<byte>, r: Record): seq<nat>
    requires VarintsOk(src, r)
  {
    if r.packed then Varints(src, BytesIn(src, r.start, r.end).value.0, BytesIn(src, r.start, r.end).value.1).value
    else [VarintIn(src, r.start, r.end, 10).value.0]
  }

  function FixedOf(src: seq<byte>, r: Record, elem: nat): seq<nat>
    requires InInput(src, r) && elem > 0 && FixedOk(src, r, elem)
  {
    if r.packed then
      var (s, z) := BytesIn(src, r.start, r.end).value;
      Borrowed(src, s, elem, CountOf(s, z, elem))
    else [LittleEndian(src, r.start, elem)]
  }

  /** The values of all records, in order. */
  function AllVarints(src: seq<byte>, records: seq<Record>): seq<nat>
    requires forall i :: 0 <= i < |records| ==> VarintsOk(src, records[i])
  {
    if records == [] then []
    else AllVarints(src, records[..|records| - 1]) + VarintsOf(src, records[|records| - 1])
  }

  function AllFixed(src: seq<byte>, records: seq<Record>, elem: nat): seq<nat>
    requires elem > 0 && forall i :: 0 <= i < |records| ==> InInput(src, records[i]) && FixedOk(src, records[i], elem)
  {
    if records == [] then []
    else AllFixed(src, records[..|records| - 1], elem) + FixedOf(src, records[|records| - 1], elem)
  }

  lemma {:induction false} TruncAppend(a: seq<nat>, b: seq<nat>, m: nat)
    requires m > 0
    ensures Trunc(a + b, m) == Trunc(a, m) + Trunc(b, m)
  {
    if a == [] {
      assert a + b == b;
    } else {
      assert (a + b)[1..] == a[1..] + b;
      TruncAppend(a[1..], b, m);
    }
  }

  lemma TruncOne(v: nat, m: nat)
    requires m > 0
    ensures Trunc([v], m) == [v % m]
  {
  }

  lemma VarintsStepAll(src: seq<byte>, records: seq<Record>, i: nat, m: nat)
    requires m > 0 && i < |records| && forall i :: 0 <= i < |records| ==> VarintsOk(src, records[i])
    ensures Trunc(AllVarints(src, records[..i + 1]), m) ==
            Trunc(AllVarints(src, records[..i]), m) + Trunc(VarintsOf(src, records[i]), m)
    ensures Trunc(AllVarints(src, []), m) == []
  {
    hide VarintsOk, VarintsOf;
    assert records[..i + 1][..i] == records[..i];
    TruncAppend(AllVarints(src, records[..i]), VarintsOf(src, records[i]), m);
  }

  lemma FixedStepAll(src: seq<byte>, records: seq<Record>, i: nat, elem: nat)
    requires elem > 0 && i < |records|
    requires forall k :: 0 <= k <= i ==> InInput(src, records[k]) && FixedOk(src, records[k], elem)
    ensures AllFixed(src, records[..i + 1], elem) == AllFixed(src, records[..i], elem) + FixedOf(src, records[i], elem)
  {
    hide InInput, FixedOk, FixedOf;
    assert records[..i + 1][..i] == records[..i];
  }

  // ----- Bools -----

  /** Bools.Get, for every element: whether the stored byte is not zero. */
  function Bools(values: seq<nat>): (r: seq<bool>)
    ensures |r| == |values|
  {
    if values == [] then [] else [values[0] != 0] + Bools(values[1..])
  }

  /**
   A repeated bool keeps the low byte of each varint, where a singular one keeps whether the varint is zero. Both agree
   exactly if no varint but zero is a multiple of 256.
   */
  lemma {:induction false} BoolsExact(values: seq<nat>)
    ensures Bools(Trunc(values, Limit(1))) == Bools(values) <==>
            forall i :: 0 <= i < |values| && values[i] % 256 == 0 ==> values[i] == 0
  {
    assert Limit(1) == 256 by { assert Limit(0) == 1; }
    if values != [] {
      BoolsExact(values[1..]);
      var kept, rest := Bools(Trunc(values, 256)), Bools(values);
      assert kept == [values[0] % 256 != 0] + Bools(Trunc(values[1..], 256));
      assert kept[0] == (values[0] % 256 != 0) && kept[1..] == Bools(Trunc(values[1..], 256));
      assert rest[0] == (values[0] != 0) && rest[1..] == Bools(values[1..]);
      assert kept == rest <==> kept[0] == rest[0] && kept[1..] == rest[1..];
      assert forall i :: 0 < i < |values| ==> values[i] == values[1..][i - 1];
    }
  }

  /** The varint 256 becomes false. */
  lemma BoolLost(src: seq<byte>, r: Record)
    requires !r.packed && InInput(src, r) && r.start + 2 <= r.end && src[r.start] == 0x80 && src[r.start + 1] == 0x02
    ensures VarintsOk(src, r) && VarintsOf(src, r) == [256] && Bools(Trunc(VarintsOf(src, r), Limit(1))) == [false]
  {
    var s := src[r.start..r.start + 2];
    assert VarintLength(src, r.start, 10) == 2;
    assert s[0] == 0x80 && s[1..] == [0x02] && s[1..][1..] == [];
    assert Value(s[1..]) == 2 && Value(s) == 256;
    TruncOne(256, Limit(1));
    assert Limit(1) == 256 by { assert Limit(0) == 1; }
  }

  /**
   How the parse of a record of numbers of a fixed size ends: past it, or failing as it is cut short, or for want of
   memory.
   */
  datatype Step = Parsed(ptr: nat) | Cut | NoMemory

  // ----- The field -----

  class Field {
    /** The size of an element, and of a borrowed one: 1 for varints. */
    const elem: nat
    const unit: nat
    /** Where the input lies. */
    const from: nat
    /** The address, the length and the capacity. */
    var raw: Slice
    /** The live region of the slice, if the elements are on the arena. */
    ghost var at: nat

    /** How far the field has come: empty, borrowed or on the arena. */
    function Stage(): nat
      reads `raw
    {
      if raw.ptr == 0 then 0 else if raw.ptr >= SIGN then 1 else 2
    }

    /** Where the borrowed elements start in the input. */
    function Start(): int
      requires raw.ptr < TWO64
      reads `raw
    {
      ClearSignBit(raw.ptr) - from
    }

    ghost predicate RawOk(live: seq<Region>, src: seq<byte>)
      reads `raw, `at
    {
      if raw.ptr == 0 then raw == Slice(0, 0, 0)
      else if raw.ptr >= SIGN then
        raw.ptr < TWO64 && 0 < raw.len == raw.cap && 0 <= Start() && Start() + Span(unit, raw.len) <= |src|
      else Owns(live, at, raw, elem) && 0 < raw.cap < TWO32
    }

    ghost predicate Valid(a: Arena, src: seq<byte>)
      reads this, a, a.mem
    {
      && a.Valid() && a.mem.Length <= SIGN && from + |src| <= SIGN && |src| < TWO32
      && elem in {1, 4, 8} && unit in {1, elem} && RawOk(a.live, src)
    }

    /** The elements. */
    ghost function List(a: Arena, src: seq<byte>): seq<nat>
      requires elem > 0
      reads `raw, a, a.mem
    {
      if raw.ptr == 0 then []
      else if raw.ptr >= SIGN then
        (if raw.ptr < TWO64 && Start() >= 0 then Borrowed(src, Start(), unit, raw.len) else [])
      else Elements(a.mem[..], raw, elem)
    }

    /** Len: the number of elements, borrowed or not. */
    lemma LenExact(a: Arena, src: seq<byte>)
      requires Valid(a, src)
      ensures |List(a, src)| == raw.len
    {
      hide Borrowed, Elements, Arena.Valid, Owns;
      if raw.ptr >= SIGN {
        BorrowedFits(src, Start(), unit, raw.len, elem);
      } else if raw.ptr > 0 {
        ElementCount(a, elem, raw, at);
      }
    }

    /** Get: element n, read from the input or from the arena. */
    method Get(a: Arena, src: seq<byte>, n: nat) returns (v: nat)
      requires Valid(a, src) && n < raw.len
      ensures n < |List(a, src)| && v == List(a, src)[n]
    {
      hide Borrowed, Elements, Arena.Valid, Owns, LittleEndian;
      LenExact(a, src);
      if raw.ptr >= SIGN {
        BorrowedAt(src, Start(), unit, raw.len, n);
        v := LittleEndian(src, Start() + n * unit, unit);
      } else {
        v := LoadNumber(a, elem, raw, n, at);
      }
    }

    /** The only region that a parser of this field may change; none if the elements are not on the arena. */
    ghost function Touched(a: Arena): nat
      reads `raw, `at, a`live
    {
      if Stage() == 2 then at else |a.live|
    }

    constructor (elem: nat, unit: nat, from: nat, a: Arena, src: seq<byte>)
      requires a.Valid() && a.mem.Length <= SIGN && from + |src| <= SIGN && |src| < TWO32 && elem in {1, 4, 8}
      requires unit in {1, elem}
      ensures Valid(a, src) && List(a, src) == [] && this.elem == elem && this.unit == unit && Stage() == 0
    {
      this.elem, this.unit, this.from, raw := elem, unit, from, Slice(0, 0, 0);
    }

    /** The size of the memory that it takes to store count more elements; 0 if there is room. */
    function Need(count: nat): nat
      requires elem > 0
      reads `raw
    {
      if Stage() == 2 && raw.len + count <= raw.cap then 0 else SizeOf(elem, raw.len + count)
    }

    /** Stores each of a slice's new elements. */
    method StoreAll(a: Arena, s: Slice, values: seq<nat>, ghost at: nat) returns (r: Slice)
      requires a.Valid() && elem > 0 && Owns(a.live, at, s, elem) && s.len + |values| <= s.cap < TWO32
      requires forall i :: 0 <= i < |values| ==> values[i] < Limit(elem)
      modifies a.mem
      ensures a.Valid() && r == s.(len := s.len + |values|) && Owns(a.live, at, r, elem)
      ensures Elements(a.mem[..], r, elem) == old(Elements(a.mem[..], s, elem)) + values
      ensures Steady(a.live, a.live, at, old(a.mem[..]), a.mem[..])
    {
      hide Elements, Steady, Limit, Owns, Arena.Valid;
      SteadySame(a.live, at, a.mem[..]);
      r := s;
      for i := 0 to |values|
        invariant a.Valid() && r == s.(len := s.len + i) && Owns(a.live, at, r, elem)
        invariant Elements(a.mem[..], r, elem) == old(Elements(a.mem[..], s, elem)) + values[..i]
        invariant Steady(a.live, a.live, at, old(a.mem[..]), a.mem[..])
      {
        ghost var mid := a.mem[..];
        r := StoreNumber(a, elem, r, values[i], at);
        assert values[..i + 1] == values[..i] + [values[i]];
        SteadyTrans(a.live, a.live, a.live, at, at, old(a.mem[..]), mid, a.mem[..]);
      }
      assert values[..|values|] == values;
    }

    /** Leaves the input: the borrowed elements move to a new slice with room for count more. */
    method Spill(a: Arena, src: seq<byte>, count: nat, base: nat) returns (s: Slice, ghost rt: nat)
      requires Valid(a, src) && Stage() == 1 && Ready(a, Need(count), base)
      modifies a, a.mem
      ensures a.Valid() && Owns(a.live, rt, s, elem) && s.ptr > 0 && s.len == raw.len && s.len + count <= s.cap < TWO32
      ensures Elements(a.mem[..], s, elem) == List(a, src) == old(List(a, src)) && rt == |old(a.live)|
      ensures Steady(old(a.live), a.live, |old(a.live)|, old(a.mem[..]), a.mem[..])
    {
      hide Borrowed, SizeOf, Elements, Steady, Limit, Owns, Contents, Clean, Arena.Valid;
      ghost var before, live := a.mem[..], a.live;
      var borrow := Borrowed(src, Start(), unit, raw.len);
      BorrowedFits(src, Start(), unit, raw.len, elem);
      s, rt := MakeRoom(a, elem, raw.len + count, base);
      ghost var mid := a.mem[..];
      NoElements(a.mem[..], s, elem);
      s := StoreAll(a, s, borrow, rt);
      SteadyAdds(live, a.live, |live|, before, mid);
      SteadyTrans(live, a.live, a.live, |live|, rt, before, mid, a.mem[..]);
    }

    /** The slice to store count more elements in, holding the ones there are. */
    method Prepare(a: Arena, src: seq<byte>, count: nat, base: nat) returns (s: Slice, ghost rt: nat)
      requires Valid(a, src) && count > 0 && Ready(a, Need(count), base)
      modifies a, a.mem
      ensures a.Valid() && Owns(a.live, rt, s, elem) && s.ptr > 0 && s.len == raw.len && s.len + count <= s.cap < TWO32
      ensures Elements(a.mem[..], s, elem) == old(List(a, src))
      ensures Steady(old(a.live), a.live, old(Touched(a)), old(a.mem[..]), a.mem[..])
      ensures rt == old(Touched(a)) || rt >= |old(a.live)|
      ensures old(Need(count)) == 0 ==> s == raw && rt == at && a.live == old(a.live) && a.mem[..] == old(a.mem[..])
    {
      hide Borrowed, SizeOf, Steady, Limit, Contents, Clean, Arena.Valid, Kept, Placeable;
      SizeFacts(elem, raw.len + count);
      if raw.ptr == 0 {
        NilContents(a.mem[..], elem);
        s, rt := GrowRoom(a, elem, Slice(0, 0, 0), count, base, |a.live|);
        NoElements(a.mem[..], s, elem);
      } else if raw.ptr >= SIGN {
        s, rt := Spill(a, src, count, base);
      } else {
        s, rt := raw, at;
        SteadySame(a.live, at, a.mem[..]);
        var spare := s.cap - s.len;
        if spare < count {
          s, rt := GrowRoom(a, elem, s, count - spare, base, at);
        }
      }
    }

    /** The three decode loops, chosen by the share of one-byte varints. */
    method DecodeValues(a: Arena, src: seq<byte>, ptr: nat, e: nat, count: nat, s: Slice, ghost at: nat)
      returns (r: Slice)
      requires CanDecode(a, src, ptr, e, elem, s, at) && count == |Varints(src, ptr, e).value|
      modifies a.mem
      ensures a.Valid() && Owns(a.live, at, r, elem) && r == s.(len := s.len + count)
      ensures Elements(a.mem[..], r, elem) ==
              old(Elements(a.mem[..], s, elem)) + Trunc(Varints(src, ptr, e).value, Limit(elem))
      ensures Steady(a.live, a.live, at, old(a.mem[..]), a.mem[..])
    {
      hide Varints, Trunc, Ends, More, Elements, Steady, Limit, Owns, Arena.Valid;
      EndsExact(src, ptr, e);
      if count == e - ptr {
        EndsAll(src, ptr, e);
        r := DecodeSmall(a, src, ptr, e, elem, s, at);
      } else if count >= (e - ptr) / 2 {
        r := DecodeMixed(a, src, ptr, e, elem, s, at);
      } else {
        r := DecodeLarge(a, src, ptr, e, elem, s, at);
      }
    }

    /** The new elements of a field are in slice s. */
    method Adopt(a: Arena, src: seq<byte>, s: Slice, ghost rt: nat)
      requires a.Valid() && a.mem.Length <= SIGN && from + |src| <= SIGN && |src| < TWO32 && elem in {1, 4, 8}
      requires unit in {1, elem}
      requires Owns(a.live, rt, s, elem) && s.ptr > 0 && 0 < s.cap < TWO32
      modifies this`raw, this`at
      ensures Valid(a, src) && Stage() == 2 && raw == s && at == rt && List(a, src) == Elements(a.mem[..], s, elem)
    {
      hide Elements, SuggestSize;
      OwnedBelow(a, rt, s, elem);
      raw, at := s, rt;
    }

    /**
     parsePackedVarint: the values of a packed record are added to the list. Only an empty field whose record holds
     nothing but one-byte varints borrows them from the input. False if there is no memory for the elements, or 4 GiB
     of them; then nothing has changed.
     */
    method ParsePackedVarint(a: Arena, src: seq<byte>, ptr: nat, end: nat, base: nat) returns (ok: bool, p: nat)
      requires Valid(a, src) && unit == 1 && VarintsOk(src, Record(true, ptr, end))
      modifies this`raw, this`at, a, a.mem
      ensures Valid(a, src) && old(Stage()) <= Stage()
      ensures Changed(old(a.live), a.live, old(Touched(a)), Touched(a), old(a.mem[..]), a.mem[..])
      ensures var (s, z) := BytesIn(src, ptr, end).value;
              && (ok ==> p == z && List(a, src) == old(List(a, src)) + Trunc(Varints(src, s, z).value, Limit(elem)))
              && (!ok ==>
                    !Ready(a, Need(|Varints(src, s, z).value|), base) && raw == old(raw)
                      && List(a, src) == old(List(a, src)))
              && (s == z ==> raw == old(raw))
              && (Stage() == 1 ==> raw == old(raw) || (Start() == s && raw.len == z - s))
    {
      hide BytesIn, Varints, VarintIn, Borrowed, Trunc, SizeOf, Ends, More, Elements, Steady, Limit, Owns, Arena.Valid;
      hide Decoded, Ready;
      var n := LengthPrefix(src, ptr, end);
      var s, z := n.ptr, n.ptr + n.value;
      ghost var values := Varints(src, s, z).value;
      NoVarints(src, s, Limit(elem));
      NothingChanged(a.live, Touched(a), a.mem[..]);
      if n.value == 0 {
        return true, s;
      }
      var count := CountVarints(src, s, z);
      EndsExact(src, s, z);
      if raw.ptr == 0 && count == n.value {
        Borrow(src, s, z, elem);
        StatesApart(from + s, 1);
        raw := Slice(OffArena(from + s), n.value % TWO32, n.value % TWO32);
        return true, z;
      }
      SomeVarint(src, s, z);
      if !Ready(a, Need(count), base) {
        return false, ptr;
      }
      ghost var live, before, touched := a.live, a.mem[..], Touched(a);
      var d, rt := Prepare(a, src, count, base);
      ghost var mid := a.mem[..];
      var r := DecodeValues(a, src, s, z, count, d, rt);
      SteadyTrans(live, a.live, a.live, touched, rt, before, mid, a.mem[..]);
      Adopt(a, src, r, rt);
      return true, z;
    }

    /** parseRepeatedVarint: the value of an unpacked record is added to the list. */
    method ParseRepeatedVarint(a: Arena, src: seq<byte>, ptr: nat, end: nat, base: nat) returns (ok: bool, p: nat)
      requires Valid(a, src) && unit == 1 && VarintsOk(src, Record(false, ptr, end))
      modifies this`raw, this`at, a, a.mem
      ensures Valid(a, src) && old(Stage()) <= Stage()
      ensures Changed(old(a.live), a.live, old(Touched(a)), Touched(a), old(a.mem[..]), a.mem[..])
      ensures ok ==> p == VarintIn(src, ptr, end, 10).value.1 && Stage() == 2
                     && List(a, src) == old(List(a, src)) + [VarintIn(src, ptr, end, 10).value.0 % Limit(elem)]
      ensures !ok ==> !Ready(a, Need(1), base) && raw == old(raw) && List(a, src) == old(List(a, src))
    {
      hide VarintIn, VarintAt, Limit, Elements, Arena.Valid, Steady, Owns;
      VarintMeets(src, ptr, end, 10);
      var r := ParseVarint(src, ptr, end);
      ok := AppendOne(a, src, r.value % Limit(elem), base);
      p := r.ptr;
    }

    /** One more element, in the room there is, or after a spill, or after growing. */
    method AppendOne(a: Arena, src: seq<byte>, v: nat, base: nat) returns (ok: bool)
      requires Valid(a, src) && v < Limit(elem)
      modifies this`raw, this`at, a, a.mem
      ensures Valid(a, src) && old(Stage()) <= Stage()
      ensures Changed(old(a.live), a.live, old(Touched(a)), Touched(a), old(a.mem[..]), a.mem[..])
      ensures ok ==> Stage() == 2 && List(a, src) == old(List(a, src)) + [v]
      ensures !ok ==> !Ready(a, Need(1), base) && raw == old(raw) && List(a, src) == old(List(a, src))
      ensures old(Stage() == 2 && raw.len < raw.cap) ==> ok && raw == old(raw).(len := old(raw.len) + 1)
    {
      hide Limit, Elements, Arena.Valid, Steady, Owns, SizeOf, Borrowed;
      NothingChanged(a.live, Touched(a), a.mem[..]);
      RoomReady(a, base);
      if !Ready(a, Need(1), base) {
        return false;
      }
      ghost var live, before, touched := a.live, a.mem[..], Touched(a);
      var s, rt := Prepare(a, src, 1, base);
      ghost var mid := a.mem[..];
      s := StoreNumber(a, elem, s, v, rt);
      SteadyTrans(live, a.live, a.live, touched, rt, before, mid, a.mem[..]);
      Adopt(a, src, s, rt);
      ok := true;
    }

    /**
     A run of records of varints, packed or not, in any mixture, up to one for which there is no memory: their values
     are added to the list in order, the field never goes back from the arena to the input or to being empty, and no
     other region of the arena changes.
     */
    method ParseAllVarints(a: Arena, src: seq<byte>, records: seq<Record>, bases: seq<nat>)
      returns (done: nat, ghost stages: seq<nat>)
      requires Valid(a, src) && unit == 1 && |bases| == |records|
      requires forall i :: 0 <= i < |records| ==> VarintsOk(src, records[i])
      modifies this`raw, this`at, a, a.mem
      ensures Valid(a, src) && done <= |records|
      ensures List(a, src) == old(List(a, src)) + Trunc(AllVarints(src, records[..done]), Limit(elem))
      ensures done < |records| ==> !Ready(a, Need(|VarintsOf(src, records[done])|), bases[done])
      ensures |stages| == done + 1 && stages[0] == old(Stage()) && stages[done] == Stage() && Rising(stages)
      ensures Changed(old(a.live), a.live, old(Touched(a)), Touched(a), old(a.mem[..]), a.mem[..])
    {
      hide Trunc, VarintsOk, VarintsOf, Elements, Arena.Valid, Limit, Steady, AllVarints, RawOk, List, Ready;
      NothingChanged(a.live, Touched(a), a.mem[..]);
      NoVarintsYet(src, Limit(elem));
      done, stages := 0, [Stage()];
      assert records[..0] == [];
      while done < |records|
        invariant Valid(a, src) && done <= |records|
        invariant List(a, src) == old(List(a, src)) + Trunc(AllVarints(src, records[..done]), Limit(elem))
        invariant |stages| == done + 1 && stages[0] == old(Stage()) && stages[done] == Stage() && Rising(stages)
        invariant Changed(old(a.live), a.live, old(Touched(a)), Touched(a), old(a.mem[..]), a.mem[..])
        decreases |records| - done
      {
        ghost var live, mid, touched := a.live, a.mem[..], Touched(a);
        VarintsStepAll(src, records, done, Limit(elem));
        var ok := ParseVarints(a, src, records[done], bases[done]);
        ChangedTrans(old(a.live), live, a.live, old(Touched(a)), touched, Touched(a), old(a.mem[..]), mid, a.mem[..]);
        if !ok {
          return;
        }
        stages := stages + [Stage()];
        done := done + 1;
      }
    }

    /** One record of varints of either kind. */
    method ParseVarints(a: Arena, src: seq<byte>, r: Record, base: nat) returns (ok: bool)
      requires Valid(a, src) && unit == 1 && VarintsOk(src, r)
      modifies this`raw, this`at, a, a.mem
      ensures Valid(a, src) && old(Stage()) <= Stage()
      ensures Changed(old(a.live), a.live, old(Touched(a)), Touched(a), old(a.mem[..]), a.mem[..])
      ensures ok ==> List(a, src) == old(List(a, src)) + Trunc(VarintsOf(src, r), Limit(elem))
      ensures !ok ==> !Ready(a, Need(|VarintsOf(src, r)|), base) && raw == old(raw) && List(a, src) == old(List(a, src))
    {
      hide Varints, VarintIn, BytesIn, Limit, Elements, Arena.Valid, Steady, Owns, Borrowed, Ready, List, RawOk;
      var p: nat;
      if r.packed {
        ok, p := ParsePackedVarint(a, src, r.start, r.end, base);
      } else {
        TruncOne(VarintIn(src, r.start, r.end, 10).value.0, Limit(elem));
        ok, p := ParseRepeatedVarint(a, src, r.start, r.end, base);
      }
    }

    /** parseRepeatedFixed and appendFixed: the number of an unpacked record is added to the list. */
    method ParseRepeatedFixed(a: Arena, src: seq<byte>, ptr: nat, end: nat, base: nat) returns (r: Step)
      requires Valid(a, src) && unit == elem && InInput(src, Record(false, ptr, end))
      modifies this`raw, this`at, a, a.mem
      ensures Valid(a, src) && old(Stage()) <= Stage()
      ensures Changed(old(a.live), a.live, old(Touched(a)), Touched(a), old(a.mem[..]), a.mem[..])
      ensures r.Cut? <==> ptr + elem > end
      ensures r.Parsed? ==>
              r.ptr == ptr + elem && Stage() == 2 && List(a, src) == old(List(a, src)) + [LittleEndian(src, ptr, elem)]
      ensures !r.Parsed? ==> raw == old(raw) && List(a, src) == old(List(a, src))
      ensures r.NoMemory? ==> !Ready(a, Need(1), base)
    {
      hide Limit, Elements, Arena.Valid, Steady, Owns, SizeOf, Borrowed, LittleEndian, Ready;
      NothingChanged(a.live, Touched(a), a.mem[..]);
      if end - ptr < elem {
        return Cut;
      }
      N.LittleFits(src, ptr, elem);
      var ok := AppendOne(a, src, LittleEndian(src, ptr, elem), base);
      r := if ok then Step.Parsed(ptr + elem) else NoMemory;
    }

    /** What Append takes for count more elements: a slice that has no room grows by all of them. */
    function NeedAppend(count: nat): nat
      requires elem > 0
      reads `raw
    {
      if Stage() == 2 && raw.len + count > raw.cap then SizeOf(elem, raw.cap + count) else Need(count)
    }

    /** parsePackedFixed: the numbers of a packed record are added to the list; an empty field borrows them. */
    method ParsePackedFixed(a: Arena, src: seq<byte>, ptr: nat, end: nat, base: nat) returns (r: Step)
      requires Valid(a, src) && unit == elem && InInput(src, Record(true, ptr, end))
      modifies this`raw, this`at, a, a.mem
      ensures Valid(a, src) && old(Stage()) <= Stage()
      ensures Changed(old(a.live), a.live, old(Touched(a)), Touched(a), old(a.mem[..]), a.mem[..])
      ensures var (s, z) := BytesIn(src, ptr, end).value;
              && (r.Cut? <==> (z - s) % elem != 0)
              && (r.Parsed? ==>
                 r.ptr == z && List(a, src) == old(List(a, src)) + Borrowed(src, s, elem, CountOf(s, z, elem)))
              && (!r.Parsed? ==> raw == old(raw) && List(a, src) == old(List(a, src)))
              && (r.NoMemory? ==> !Ready(a, NeedAppend(CountOf(s, z, elem)), base))
              && (old(Stage()) == 0 && s < z && r.Parsed? ==> Stage() == 1 && Start() == s)
    {
      hide BytesIn, Borrowed, SizeOf, Elements, Limit, Steady, Owns, Arena.Valid, Ready, CountOf, List, RawOk;
      hide NeedAppend;
      var n := LengthPrefix(src, ptr, end);
      var s, z := n.ptr, n.ptr + n.value;
      NothingChanged(a.live, Touched(a), a.mem[..]);
      CountedSpan(s, z, elem);
      if n.value == 0 {
        NoneBorrowed(src, s, elem);
        return Step.Parsed(s);
      }
      if n.value % elem != 0 {
        return Cut;
      }
      var count := CountOf(s, z, elem);
      if raw.ptr == 0 {
        BorrowFixed(a, src, s, count);
        return Step.Parsed(z);
      }
      RoomReady(a, base);
      if !Ready(a, NeedAppend(count), base) {
        return NoMemory;
      }
      AppendNumbers(a, src, s, count, base);
      r := Step.Parsed(z);
    }

    /** OffArena: an empty field borrows count numbers from the input. */
    method BorrowFixed(a: Arena, src: seq<byte>, s: nat, count: nat)
      requires Valid(a, src) && unit == elem && raw.ptr == 0 && 0 < count < TWO32 && s + Span(elem, count) <= |src|
      modifies this`raw
      ensures Valid(a, src) && Stage() == 1 && Start() == s
      ensures List(a, src) == old(List(a, src)) + Borrowed(src, s, elem, count)
    {
      hide Borrowed, Arena.Valid;
      BorrowedFits(src, s, elem, count, elem);
      StatesApart(from + s, 1);
      raw := Slice(OffArena(from + s), count % TWO32, count % TWO32);
    }

    /** A spill, if the elements are borrowed, and Append. */
    method AppendNumbers(a: Arena, src: seq<byte>, s: nat, count: nat, base: nat)
      requires Valid(a, src) && unit == elem && raw.ptr > 0 && count > 0 && s + Span(elem, count) <= |src|
      requires Ready(a, NeedAppend(count), base)
      modifies this`raw, this`at, a, a.mem
      ensures Valid(a, src) && Stage() == 2 && List(a, src) == old(List(a, src)) + Borrowed(src, s, elem, count)
      ensures Changed(old(a.live), a.live, old(Touched(a)), Touched(a), old(a.mem[..]), a.mem[..])
    {
      hide Borrowed, SizeOf, Contents, Clean, Limit, Steady, Arena.Valid, Ready, N.Numbers;
      ghost var live, before, touched := a.live, a.mem[..], Touched(a);
      SteadySame(a.live, touched, a.mem[..]);
      var d := raw;
      ghost var rt := at;
      if raw.ptr >= SIGN {
        d, rt := Spill(a, src, count, base);
      }
      ghost var mid, live1 := a.mem[..], a.live;
      SpanBytes(src, s, elem, count);
      N.NumbersAppend(Contents(mid, d, elem), src[s..s + Span(elem, count)], elem, count);
      BorrowedNumbers(src, s, elem, count);
      var r, rt1 := Append(a, elem, d, src[s..s + Span(elem, count)], count, base, rt);
      OwnsAddress(a, rt1, r, elem);
      SteadyTrans(live, live1, a.live, touched, rt, before, mid, a.mem[..]);
      Adopt(a, src, r, rt1);
    }

    /**
     A run of records of fixed-size numbers, packed or not, in any mixture, up to one that is cut short or for which
     there is no memory: their numbers are added to the list in order, the field never goes back from the arena to the
     input or to being empty, and no other region of the arena changes.
     */
    method ParseAllFixed(a: Arena, src: seq<byte>, records: seq<Record>, bases: seq<nat>)
      returns (done: nat, cut: bool, ghost stages: seq<nat>)
      requires Valid(a, src) && unit == elem && |bases| == |records|
      requires forall i :: 0 <= i < |records| ==> InInput(src, records[i])
      modifies this`raw, this`at, a, a.mem
      ensures Valid(a, src) && done <= |records| && forall i :: 0 <= i < done ==> FixedOk(src, records[i], elem)
      ensures List(a, src) == old(List(a, src)) + AllFixed(src, records[..done], elem)
      ensures cut <==> done < |records| && !FixedOk(src, records[done], elem)
      ensures done < |records| && !cut ==> !Ready(a, NeedFixed(src, records[done]), bases[done])
      ensures |stages| == done + 1 && stages[0] == old(Stage()) && stages[done] == Stage() && Rising(stages)
      ensures Changed(old(a.live), a.live, old(Touched(a)), Touched(a), old(a.mem[..]), a.mem[..])
    {
      hide InInput, FixedOf, FixedOk, Elements, Arena.Valid, Limit, Steady, RawOk, List, Ready, NeedFixed;
      NothingChanged(a.live, Touched(a), a.mem[..]);
      done, cut, stages := 0, false, [Stage()];
      assert records[..0] == [];
      while done < |records|
        invariant Valid(a, src) && done <= |records| && !cut
        invariant forall i :: 0 <= i < done ==> FixedOk(src, records[i], elem)
        invariant List(a, src) == old(List(a, src)) + AllFixed(src, records[..done], elem)
        invariant |stages| == done + 1 && stages[0] == old(Stage()) && stages[done] == Stage() && Rising(stages)
        invariant Changed(old(a.live), a.live, old(Touched(a)), Touched(a), old(a.mem[..]), a.mem[..])
        decreases |records| - done
      {
        ghost var live, mid, touched := a.live, a.mem[..], Touched(a);
        var r := ParseFixed(a, src, records[done], bases[done]);
        ChangedTrans(old(a.live), live, a.live, old(Touched(a)), touched, Touched(a), old(a.mem[..]), mid, a.mem[..]);
        if !r.Parsed? {
          cut := r.Cut?;
          return;
        }
        FixedStepAll(src, records, done, elem);
        stages := stages + [Stage()];
        done := done + 1;
      }
    }

    /** What one record takes. */
    function NeedFixed(src: seq<byte>, r: Record): nat
      requires elem > 0 && InInput(src, r)
      reads `raw
    {
      if r.packed then
        var (s, z) := BytesIn(src, r.start, r.end).value;
        NeedAppend(CountOf(s, z, elem))
      else Need(1)
    }

    /** One record of fixed-size numbers of either kind. */
    method ParseFixed(a: Arena, src: seq<byte>, r: Record, base: nat) returns (t: Step)
      requires Valid(a, src) && unit == elem && InInput(src, r)
      modifies this`raw, this`at, a, a.mem
      ensures Valid(a, src) && old(Stage()) <= Stage()
      ensures Changed(old(a.live), a.live, old(Touched(a)), Touched(a), old(a.mem[..]), a.mem[..])
      ensures t.Cut? <==> !FixedOk(src, r, elem)
      ensures t.Parsed? ==> List(a, src) == old(List(a, src)) + FixedOf(src, r, elem)
      ensures !t.Parsed? ==> raw == old(raw) && List(a, src) == old(List(a, src))
      ensures t.NoMemory? ==> !Ready(a, NeedFixed(src, r), base)
    {
      hide BytesIn, Limit, Elements, Arena.Valid, Steady, Owns, Borrowed, Ready, List, RawOk, LittleEndian;
      if r.packed {
        t := ParsePackedFixed(a, src, r.start, r.end, base);
      } else {
        t := ParseRepeatedFixed(a, src, r.start, r.end, base);
      }
    }
  }

  lemma CountedSpan(s: nat, z: nat, elem: nat)
    requires elem in {1, 4, 8} && s <= z
    ensures CountOf(s, z, elem) <= z - s && (s == z ==> CountOf(s, z, elem) == 0)
    ensures s < z && (z - s) % elem == 0 ==> CountOf(s, z, elem) > 0 && Span(elem, CountOf(s, z, elem)) == z - s
  {
  }

  lemma NoneBorrowed(src: seq<byte>, p: nat, unit: nat)
    ensures Borrowed(src, p, unit, 0) == []
  {
  }

  lemma SpanBytes(src: seq<byte>, p: nat, elem: nat, count: nat)
    requires p + Span(elem, count) <= |src|
    ensures |src[p..p + Span(elem, count)]| == Span(elem, count) == count * elem
  {
  }

  lemma SpanStep(n: nat, count: nat)
    requires count > 0
    ensures Span(n, count) == n + Span(n, count - 1)
  {
    Distribute(count - 1, 1, n);
  }

  lemma {:induction false} BorrowedAt(src: seq<byte>, p: nat, n: nat, count: nat, i: nat)
    requires n > 0 && p + Span(n, count) <= |src| && i < count
    ensures |Borrowed(src, p, n, count)| == count && 0 <= i * n && p + i * n + n <= |src|
    ensures Borrowed(src, p, n, count)[i] == LittleEndian(src, p + i * n, n)
    decreases count
  {
    hide LittleEndian, Span;
    SpanStep(n, count);
    if i > 0 {
      Distribute(i - 1, 1, n);
      BorrowedAt(src, p + n, n, count - 1, i - 1);
    } else if count > 1 {
      BorrowedAt(src, p + n, n, count - 1, 0);
    } else {
      NoneBorrowed(src, p + n, n);
    }
  }

  /** The bytes that were borrowed are the bytes of the numbers. */
  lemma BorrowedNumbers(src: seq<byte>, p: nat, n: nat, count: nat)
    requires n > 0 && count > 0 && p + Span(n, count) <= |src|
    ensures N.Numbers(src[p..p + Span(n, count)], n) == Borrowed(src, p, n, count)
  {
    hide LittleEndian, Borrowed, N.Numbers;
    SpanBytes(src, p, n, count);
    var bytes := src[p..p + Span(n, count)];
    N.NumbersExact(bytes, n, count);
    BorrowedAt(src, p, n, count, 0);
    forall i | 0 <= i < count
      ensures N.Numbers(bytes, n)[i] == Borrowed(src, p, n, count)[i]
    {
      BorrowedAt(src, p, n, count, i);
      N.NumberAt(src, p, bytes, n, count, i);
    }
  }

  /** No stage is below the one before it. */
  ghost predicate Rising(stages: seq<nat>) {
    forall i, j :: 0 <= i < j < |stages| ==> stages[i] <= stages[j]
  }

  lemma NoVarintsYet(src: seq<byte>, m: nat)
    requires m > 0
    ensures Trunc(AllVarints(src, []), m) == []
  {
  }

  lemma ChangedTrans(live: seq<Region>, live1: seq<Region>, live2: seq<Region>, touched: nat, now: nat, later: nat,
                     before: seq<byte>, mid: seq<byte>, after: seq<byte>)
    requires Changed(live, live1, touched, now, before, mid) && Changed(live1, live2, now, later, mid, after)
    ensures Changed(live, live2, touched, later, before, after)
  {
    SteadyTrans(live, live1, live2, touched, now, before, mid, after);
  }

  /** What a parser of one field does to the arena: it changes one region, or none, and may move to a new one. */
  ghost predicate Changed(live: seq<Region>, more: seq<Region>, touched: nat, now: nat, before: seq<byte>,
                          after: seq<byte>) {
    Steady(live, more, touched, before, after) && (now == touched || now >= |live|)
  }

  lemma NothingChanged(live: seq<Region>, touched: nat, mem: seq<byte>)
    ensures Changed(live, live, touched, touched, mem, mem)
  {
    SteadySame(live, touched, mem);
  }

  /** Memory that is owned lies below the sign bit. */
  lemma OwnedBelow(a: Arena, at: nat, s: Slice, elem: nat)
    requires a.Valid() && a.mem.Length <= SIGN && Owns(a.live, at, s, elem) && s.cap > 0 && elem > 0
    ensures s.ptr < SIGN
  {
    hide SuggestSize;
    SpansFit(a, elem, s, at);
    SizeFacts(elem, s.cap);
  }

  lemma NilContents(mem: seq<byte>, elem: nat)
    ensures Contents(mem, Slice(0, 0, 0), elem) == []
  {
  }

  lemma SomeVarint(src: seq<byte>, s: nat, z: nat)
    requires s < z && z + PADDING <= |src| && Varints(src, s, z).Some?
    ensures |Varints(src, s, z).value| > 0
  {
    hide VarintIn;
  }

  lemma {:induction false} BorrowedFits(src: seq<byte>, p: nat, unit: nat, len: nat, elem: nat)
    requires unit in {1, elem} && elem in {1, 4, 8} && p + Span(unit, len) <= |src|
    ensures |Borrowed(src, p, unit, len)| == len
    ensures forall i :: 0 <= i < len ==> Borrowed(src, p, unit, len)[i] < Limit(elem)
    decreases len
  {
    hide Limit, LittleEndian;
    if len > 0 {
      Distribute(len - 1, 1, unit);
      BorrowedFits(src, p + unit, unit, len - 1, elem);
      N.LittleFits(src, p, unit);
      LimitGrows(elem);
    }
  }

  lemma LimitGrows(elem: nat)
    requires elem > 0
    ensures Limit(1) <= Limit(elem)
  {
  }

  lemma Borrow(src: seq<byte>, s: nat, z: nat, elem: nat)
    requires elem in {1, 4, 8} && s < z && z + PADDING <= |src| && Varints(src, s, z).Some? && Ends(src, s, z) == z - s
    ensures |Borrowed(src, s, 1, z - s)| == z - s
    ensures Trunc(Varints(src, s, z).value, Limit(elem)) == Borrowed(src, s, 1, z - s)
  {
    hide Varints, Borrowed, Trunc, Ends, More, Limit;
    EndsExact(src, s, z);
    EndsAll(src, s, z);
    AllOneByte(src, s, z);
    BorrowedFits(src, s, 1, z - s, elem);
    TruncSmall(Borrowed(src, s, 1, z - s), Limit(elem));
  }
}
