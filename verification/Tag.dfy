/**
 Field tags as the parser compares them (internal/tdp/tag.go), and how the loop reads one (internal/tdp/vm/run.go).
 */
module Tag {
  import opened Base128
  import opened Bits
  import opened TagSwar
  import opened Words

  // ----- The spread form -----

  /** The groups of seven bits of v, one per byte: a varint with its sign bits cleared. */
  function Spread(v: nat): nat {
    if v == 0 then 0 else v % 128 + 256 * Spread(v / 128)
  }

  /** The same, read off encoded bytes. */
  function SpreadBytes(s: seq<byte>): nat {
    if s == [] then 0 else Low7(s[0]) + 256 * SpreadBytes(s[1..])
  }

  /** EncodeTag: the canonical encoding written over a zero word, sign bits cleared. */
  function EncodeTag(number: nat, wireType: nat): nat {
    SpreadBytes(Encode(number * 8 + wireType))
  }

  /** The group at byte i of a tag: (tag & (0x7f << 8 * i)) >> 8 * i. */
  function Group(tag: nat, i: nat): nat {
    tag / Pow2(8 * i) % 128
  }

  /** Tag.Decode, which gathers the five lowest groups. */
  method Decode(tag: nat) returns (v: nat)
    ensures v == Gather(tag, 5)
  {
    hide Or, Group;
    v := 0;
    for i := 0 to 5
      invariant v == Gather(tag, i) < Pow2(7 * i)
    {
      GatherStep(tag, i);
      OrAbove(v, Group(tag, i), 7 * i);
      v := Or(v, Group(tag, i) * Pow2(7 * i));
    }
  }

  /** The value of the n lowest groups of a tag. */
  function Gather(tag: nat, n: nat): nat {
    if n == 0 then 0 else tag % 128 + 128 * Gather(tag / 256, n - 1)
  }

  lemma {:induction false} GatherStep(tag: nat, n: nat)
    ensures Gather(tag, n + 1) == Gather(tag, n) + Group(tag, n) * Pow2(7 * n)
    ensures Gather(tag, n + 1) < Pow2(7 * (n + 1))
    decreases n
  {
    Pow2Times128(7 * n);
    if n == 0 {
      assert Gather(tag, 1) == tag % 128;
      assert Group(tag, 0) == tag % 128;
    } else {
      GatherStep(tag / 256, n - 1);
      GroupShift(tag, n);
      Pow2Times128(7 * (n - 1));
      Regroup(Group(tag, n), Pow2(7 * (n - 1)));
    }
  }

  lemma GroupShift(tag: nat, n: nat)
    requires n > 0
    ensures Group(tag, n) == Group(tag / 256, n - 1)
  {
    var p := Pow2(8 * (n - 1));
    assert Pow2(8 * n) == 256 * p by {
      Pow2Times128(8 * (n - 1));
      assert Pow2(8 * n) == 2 * Pow2(8 * n - 1);
    }
    DivDiv(tag, 256, p);
  }

  lemma DivDiv(a: nat, b: nat, c: nat)
    requires b > 0 && c > 0
    ensures b * c > 0 && a / (b * c) == a / b / c
  {
    MulBounds(b, c);
    var q, r := a / b, a % b;
    var q2, r2 := q / c, q % c;
    assert a == (q2 * c + r2) * b + r;
    Distribute(q2 * c, r2, b);
    assert q2 * c * b == q2 * (b * c);
    assert r2 * b <= (c - 1) * b by { MulLess(r2, c - 1, b); }
    Distribute(c, -1, b);
    ModUnique(a, q2, r2 * b + r, b * c);
  }

  /** Spreading the value is spreading the bytes. */
  lemma {:induction false} SpreadValue(s: seq<byte>)
    ensures SpreadBytes(s) == Spread(Value(s))
  {
    hide Low7, Spread;
    if s == [] {
      assert Spread(0) == 0 by { SpreadUnfold(0); }
    } else {
      SpreadValue(s[1..]);
      var low, high := Low7(s[0]), Value(s[1..]);
      SpreadUnfold(low + 128 * high);
      assert (low + 128 * high) % 128 == low && (low + 128 * high) / 128 == high;
    }
  }

  lemma SpreadUnfold(v: nat)
    ensures v == 0 ==> Spread(v) == 0
    ensures Spread(v) == v % 128 + 256 * Spread(v / 128)
  {
  }

  lemma GatherUnfold(tag: nat, n: nat)
    ensures Gather(tag, n) == if n == 0 then 0 else tag % 128 + 128 * Gather(tag / 256, n - 1)
  {
  }

  lemma SplitGroup(low: nat, high: nat)
    requires low < 128
    ensures (low + 256 * high) % 128 == low && (low + 256 * high) / 256 == high
  {
  }

  /** A number of n groups less its lowest has one group less. */
  lemma FewerGroups(v: nat, n: nat)
    requires n > 0 && v < Pow2(7 * n)
    ensures v / 128 < Pow2(7 * (n - 1))
  {
    hide Pow2;
    Pow2Times128(7 * (n - 1));
  }

  /** Gathering undoes spreading, as far as the groups go. */
  lemma {:induction false} GatherSpread(v: nat, n: nat)
    requires v < Pow2(7 * n)
    ensures Gather(Spread(v), n) == v
    decreases n
  {
    GatherUnfold(Spread(v), n);
    if n > 0 {
      hide Spread, Gather, Pow2;
      FewerGroups(v, n);
      GatherSpread(v / 128, n - 1);
      SpreadUnfold(v);
      SplitGroup(v % 128, Spread(v / 128));
    }
  }

  /** Decode inverts EncodeTag for every field number and wire type. */
  lemma DecodeEncodeTag(number: nat, wireType: nat)
    requires number < 0x2000_0000 && wireType < 8
    ensures Gather(EncodeTag(number, wireType), 5) == number * 8 + wireType
  {
    var v := number * 8 + wireType;
    EncodeExact(v);
    SpreadValue(Encode(v));
    Pow2At35();
    GatherSpread(v, 5);
  }

  lemma Pow2At35()
    ensures Pow2(35) == 0x8_0000_0000
  {
    Pow2Times128(0);
    Pow2Times128(7);
    Pow2Times128(14);
    Pow2Times128(21);
    Pow2Times128(28);
  }

  lemma {:induction false} SpreadMonotone(v: nat, w: nat)
    requires v < w
    ensures Spread(v) < Spread(w)
    decreases w
  {
    if v / 128 < w / 128 {
      SpreadMonotone(v / 128, w / 128);
    }
    SpreadUnfold(v);
    SpreadUnfold(w);
  }

  // ----- Overflow -----

  function LeadingZeros64(t: nat): int {
    64 - BitLen(t)
  }

  predicate Overflows(tag: nat) {
    LeadingZeros64(tag) < 64 - 32 - 4
  }

  lemma {:induction false} BitLenAbove(t: nat, k: nat)
    ensures BitLen(t) > k <==> t >= Pow2(k)
    decreases k
  {
    if t > 0 && k > 0 {
      BitLenAbove(t / 2, k - 1);
    }
  }

  /** A tag overflows iff the number it spreads needs more than 32 bits. */
  lemma OverflowsExact(v: nat)
    ensures Overflows(Spread(v)) <==> v >= 0x1_0000_0000
  {
    BitLenAbove(Spread(v), 36);
    Pow2At35();
    assert Pow2(36) == 2 * Pow2(35);
    assert Spread(0x1_0000_0000) == 0x10_0000_0000 by {
      SpreadUnfold(0x1_0000_0000);
      SpreadUnfold(0x200_0000);
      SpreadUnfold(0x4_0000);
      SpreadUnfold(0x800);
      SpreadUnfold(0x10);
    }
    if v < 0x1_0000_0000 {
      SpreadMonotone(v, 0x1_0000_0000);
    } else if v > 0x1_0000_0000 {
      SpreadMonotone(0x1_0000_0000, v);
    }
  }

  // ----- Reading a tag -----

  /** The number a word stands for, from byte j on. */
  function NatFrom(w: word, j: nat): nat
    requires j <= 8
    decreases 8 - j
  {
    if j == 8 then 0 else Byte(w, j) as nat + 256 * NatFrom(w, j + 1)
  }

  function TagOf(w: word): nat {
    NatFrom(w, 0)
  }

  /**
   The `number` block of the loop: one byte if its sign bit is clear, else the masked word; a word without a
   terminator goes through checkLargeVarint, which allows only one more byte, 0x00, after an eighth byte 0x80.
   */
  function ReadTag(mem: seq<byte>, ptr: nat, end: nat): (r: Parsed<nat>)
    requires ptr < end && end + PADDING <= |mem|
  {
    if !More(mem[ptr]) then Ok(mem[ptr] as nat, ptr + 1)
    else
      var w := Load(mem, ptr);
      var bits := TagBits(w);
      var n := (bits - 1) / 8 + 1;
      if ptr + n > end then Err(Truncated)
      else if bits < 64 then Ok(TagOf(Masked(w)), ptr + n)
      else CheckLargeVarint(mem, ptr + n, TagOf(Flip(w)))
  }

  /** checkLargeVarint at p, just after eight continuing bytes. */
  function CheckLargeVarint(mem: seq<byte>, p: nat, tag: nat): (r: Parsed<nat>)
    requires 0 < p < |mem|
  {
    if mem[p - 1] == 0x00 then Ok(tag, p)
    else if mem[p - 1] == 0x80 then
      if mem[p] != 0x00 then Err(Overflow) else Ok(tag, p + 1)
    else Err(Overflow)
  }

  /**
   The same, by value: the number of a varint of at most eight bytes, or of eight that continue, the last of them
   without payload, before a zero byte, which the parser consumes without a check of the end.
   */
  function TagAt(mem: seq<byte>, ptr: nat, end: nat): (r: Parsed<nat>)
    requires ptr < end && end + PADDING <= |mem|
  {
    var n := VarintLength(mem, ptr, 8);
    if ptr + (if n <= 8 then n else 8) > end then Err(Truncated)
    else if n <= 8 then Ok(Value(mem[ptr..ptr + n]), ptr + n)
    else if mem[ptr + 7] == 0x80 && mem[ptr + 8] == 0x00 then Ok(Value(mem[ptr..ptr + 8]), ptr + 9)
    else Err(Overflow)
  }

  lemma LoadTerminates(mem: seq<byte>, ptr: nat, n: nat)
    requires ptr + 8 <= |mem| && 1 <= n <= 8 && IsVarint(mem[ptr..ptr + n])
    ensures Terminates(Load(mem, ptr), n)
  {
    hide Byte, Load, More;
    forall j | 0 <= j < n
      ensures Byte(Load(mem, ptr), j) == mem[ptr..ptr + n][j]
    {
      LoadByte(mem, ptr, j);
    }
  }

  /** The masked word spreads exactly the groups before the terminator. */
  lemma {:induction false} MaskedSpread(mem: seq<byte>, ptr: nat, n: nat, j: nat)
    requires ptr + 8 <= |mem| && 1 <= n <= 8 && Terminates(Load(mem, ptr), n) && j <= 8
    ensures NatFrom(Masked(Load(mem, ptr)), j) == if j < n then SpreadBytes(mem[ptr + j..ptr + n]) else 0
    decreases 8 - j
  {
    hide Byte, Load, Masked, Terminates, TagBits;
    if j < 8 {
      MaskedSpread(mem, ptr, n, j + 1);
      MaskedByte(Load(mem, ptr), n, j);
      LoadByte(mem, ptr, j);
      if j < n {
        var s := mem[ptr + j..ptr + n];
        assert s[0] == mem[ptr + j] && s[1..] == mem[ptr + j + 1..ptr + n];
        assert j + 1 == n ==> s[1..] == [];
      }
    }
  }

  /** When no byte of the word terminates, flipping the sign bits leaves all eight groups. */
  lemma {:induction false} FlippedSpread(mem: seq<byte>, ptr: nat, j: nat)
    requires ptr + 8 <= |mem| && j <= 8
    requires forall q :: ptr <= q < ptr + 8 ==> More(mem[q])
    ensures NatFrom(Flip(Load(mem, ptr)), j) == SpreadBytes(mem[ptr + j..ptr + 8])
    decreases 8 - j
  {
    hide Byte, Load, Flip, More;
    if j < 8 {
      FlippedSpread(mem, ptr, j + 1);
      FlipByte(Load(mem, ptr), j);
      LoadByte(mem, ptr, j);
      FlipContinues(mem[ptr + j]);
      var s := mem[ptr + j..ptr + 8];
      assert s[0] == mem[ptr + j] && s[1..] == mem[ptr + j + 1..ptr + 8];
    }
  }

  lemma {:induction false} GroupBound(s: seq<byte>, i: nat)
    requires i < |s|
    ensures Value(s) >= Low7(s[i]) * Pow2(7 * i)
    decreases i
  {
    hide Low7;
    if i > 0 {
      GroupBound(s[1..], i - 1);
      Pow2Times128(7 * (i - 1));
      Regroup(Low7(s[i]), Pow2(7 * (i - 1)));
    }
  }

  lemma ContinuesBefore(mem: seq<byte>, ptr: nat, n: nat)
    requires ptr + n <= |mem| && IsVarint(mem[ptr..ptr + n])
    ensures forall q :: ptr <= q < ptr + n - 1 ==> More(mem[q])
    ensures !More(mem[ptr + n - 1])
  {
    hide More;
    var s := mem[ptr..ptr + n];
    forall q | ptr <= q < ptr + n - 1
      ensures More(mem[q])
    {
      assert mem[q] == s[q - ptr];
    }
    assert mem[ptr + n - 1] == s[n - 1];
  }

  lemma SmallBytes(b: byte)
    ensures !More(b) ==> b as nat == Low7(b)
    ensures !More(b) && Low7(b) == 0 ==> b == 0
    ensures More(b) && Low7(b) == 0 ==> b == 0x80
    ensures More(b) ==> b != 0
  {
  }

  lemma Pow2At49()
    ensures Pow2(49) == 0x2_0000_0000_0000
  {
    Pow2At35();
    Pow2Times128(35);
    Pow2Times128(42);
  }

  lemma HighGroupsZero(s: seq<byte>)
    requires |s| == 9 && Value(s) < 0x2_0000_0000_0000
    ensures Low7(s[7]) == 0 && Low7(s[8]) == 0
  {
    hide Low7, Value;
    GroupBound(s, 7);
    GroupBound(s, 8);
    Pow2At49();
    Pow2Times128(49);
  }

  lemma AllContinue(mem: seq<byte>, ptr: nat)
    requires ptr + 8 <= |mem| && forall q :: ptr <= q < ptr + 8 ==> More(mem[q])
    ensures forall j :: 0 <= j < 8 ==> More(Byte(Load(mem, ptr), j))
  {
    hide Byte, Load, More;
    forall j | 0 <= j < 8
      ensures More(Byte(Load(mem, ptr), j))
    {
      LoadByte(mem, ptr, j);
    }
  }

  lemma ReadUpToEight(mem: seq<byte>, ptr: nat, end: nat, n: nat)
    requires n <= 8 && ptr < end && end + PADDING <= |mem| && IsVarint(mem[ptr..ptr + n])
    ensures ReadTag(mem, ptr, end) == if ptr + n > end then Err(Truncated)
            else Ok(SpreadBytes(mem[ptr..ptr + n]), ptr + n)
  {
    var s := mem[ptr..ptr + n];
    ContinuesBefore(mem, ptr, n);
    hide Byte, Load, Masked, More, Low7, TagBits, Terminates;
    if n == 1 {
      SmallBytes(mem[ptr]);
      assert s == [mem[ptr]] && s[1..] == [];
    } else {
      LoadTerminates(mem, ptr, n);
      MaskedByte(Load(mem, ptr), n, 0);
      MaskedSpread(mem, ptr, n, 0);
      assert mem[ptr + 0..ptr + n] == s;
    }
  }

  lemma ReadLarge(mem: seq<byte>, ptr: nat, end: nat)
    requires ptr < end && end + PADDING <= |mem| && forall q :: ptr <= q < ptr + 8 ==> More(mem[q])
    ensures ReadTag(mem, ptr, end) ==
            if ptr + 8 > end then Err(Truncated)
            else if mem[ptr + 7] == 0x80 && mem[ptr + 8] == 0x00 then Ok(SpreadBytes(mem[ptr..ptr + 8]), ptr + 9)
            else Err(Overflow)
  {
    hide Byte, Load, Flip, More, Low7, TagBits, SpreadBytes;
    AllContinue(mem, ptr);
    TagBitsNone(Load(mem, ptr));
    FlippedSpread(mem, ptr, 0);
    assert mem[ptr + 0..ptr + 8] == mem[ptr..ptr + 8];
    SmallBytes(mem[ptr + 7]);
  }

  /** The bytes up to the first of eight that does not continue, if there is one. */
  lemma {:induction false} LengthMeans(mem: seq<byte>, ptr: nat, limit: nat)
    requires ptr + limit <= |mem|
    ensures var n := VarintLength(mem, ptr, limit);
            if n <= limit then IsVarint(mem[ptr..ptr + n]) else forall q :: ptr <= q < ptr + limit ==> More(mem[q])
    decreases limit
  {
    hide More;
    if VarintLength(mem, ptr, limit) <= limit {
      LengthIsVarint(mem, ptr, limit);
    } else if limit > 0 {
      LengthMeans(mem, ptr + 1, limit - 1);
    }
  }

  /** On every input, what the loop reads is the spread of the value, and it fails where there is none. */
  lemma ReadTagMeans(mem: seq<byte>, ptr: nat, end: nat)
    requires ptr < end && end + PADDING <= |mem|
    ensures ReadTag(mem, ptr, end) ==
            match TagAt(mem, ptr, end)
            case Err(code) => Err(code)
            case Ok(v, p) => Ok(Spread(v), p)
  {
    hide ReadTag, IsVarint, Value, Spread, SpreadBytes, VarintLength, More;
    var n := VarintLength(mem, ptr, 8);
    LengthMeans(mem, ptr, 8);
    if n <= 8 {
      SpreadValue(mem[ptr..ptr + n]);
      ReadUpToEight(mem, ptr, end, n);
    } else {
      SpreadValue(mem[ptr..ptr + 8]);
      ReadLarge(mem, ptr, end);
    }
  }

  /** Every varint of at most nine bytes and 32 bits has its value. */
  lemma TagAtExact(mem: seq<byte>, ptr: nat, end: nat, n: nat)
    requires n <= 9 && ptr + n <= end && end + PADDING <= |mem|
    requires IsVarint(mem[ptr..ptr + n]) && Value(mem[ptr..ptr + n]) < 0x1_0000_0000
    ensures TagAt(mem, ptr, end) == Ok(Value(mem[ptr..ptr + n]), ptr + n)
  {
    hide Value, IsVarint, VarintLength, More, Low7;
    if n <= 8 {
      LengthOfVarint(mem, ptr, n, 8);
    } else {
      var s := mem[ptr..ptr + 9];
      ContinuesBefore(mem, ptr, 9);
      LengthOfEight(mem, ptr);
      HighGroupsZero(s);
      SmallBytes(s[7]);
      SmallBytes(s[8]);
      ValueAppend(s[..8], s[8]);
      assert s == s[..8] + [s[8]] && s[..8] == mem[ptr..ptr + 8];
    }
  }

  lemma LengthOfEight(mem: seq<byte>, ptr: nat)
    requires ptr + 8 <= |mem| && forall q :: ptr <= q < ptr + 8 ==> More(mem[q])
    ensures VarintLength(mem, ptr, 8) == 9
  {
    LengthAfter(mem, ptr, 8, 8);
  }

  /** The loop reads every tag of at most 32 bits, overlong up to nine bytes, as the spread of its value. */
  lemma ReadTagExact(mem: seq<byte>, ptr: nat, end: nat, n: nat)
    requires n <= 9 && ptr + n <= end && end + PADDING <= |mem|
    requires IsVarint(mem[ptr..ptr + n]) && Value(mem[ptr..ptr + n]) < 0x1_0000_0000
    ensures ReadTag(mem, ptr, end) == Ok(Spread(Value(mem[ptr..ptr + n])), ptr + n)
  {
    hide ReadTag, TagAt, Value, Spread, More;
    TagAtExact(mem, ptr, end, n);
    ReadTagMeans(mem, ptr, end);
  }

  /** A ten-byte encoding of a tag, which parseVarint would accept, is refused by the loop. */
  lemma ReadTenFails(mem: seq<byte>, ptr: nat, end: nat)
    requires ptr + 10 <= end && end + PADDING <= |mem| && IsVarint(mem[ptr..ptr + 10])
    ensures ReadTag(mem, ptr, end) == Err(Overflow)
  {
    hide ReadTag, IsVarint, Value, Spread, VarintLength, More;
    ContinuesBefore(mem, ptr, 10);
    LengthOfEight(mem, ptr);
    SmallBytes(mem[ptr + 8]);
    ReadTagMeans(mem, ptr, end);
  }

  /**
   Eight bytes that continue, the last of them 0x80, right before the end: a zero after the end becomes part of the tag.
   */
  lemma ReadsPastEnd(mem: seq<byte>, ptr: nat, end: nat)
    requires ptr + 8 == end && end + PADDING <= |mem|
    requires (forall q :: ptr <= q < end ==> More(mem[q])) && mem[end - 1] == 0x80
    ensures ReadTag(mem, ptr, end) ==
            if mem[end] == 0 then Ok(Spread(Value(mem[ptr..end])), end + 1) else Err(Overflow)
  {
    hide ReadTag, Value, Spread, VarintLength, More;
    LengthOfEight(mem, ptr);
    ReadTagMeans(mem, ptr, end);
  }

  /** Two tags are equal words iff they spread equal numbers. */
  lemma SpreadInjective(v: nat, w: nat)
    ensures Spread(v) == Spread(w) <==> v == w
  {
    if v < w {
      SpreadMonotone(v, w);
    } else if w < v {
      SpreadMonotone(w, v);
    }
  }
}
