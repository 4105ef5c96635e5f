/** Base-128 varints: their value, their canonical encoding, and the parser of internal/tdp/vm/varint.go. */
module Base128 {
  import opened Bits
  import opened Words

  /** The parse errors of internal/tdp/vm/error.go that the model raises. */
  datatype ErrorCode = Truncated | FieldNumber | Overflow | Reserved | EndGroup | RecursionDepth | InvalidUTF8

  /** A parsed value with the position after it, or the error that ended the parse. */
  datatype Parsed<+T> = Ok(value: T, ptr: nat) | Err(code: ErrorCode)

  /** The sign bit: another byte follows. */
  predicate More(b: byte) {
    b & 0x80 != 0
  }

  /** The seven payload bits. */
  function Low7(b: byte): (n: nat)
    ensures n < 128
  {
    (b & 0x7f) as nat
  }

  lemma ByteValue(b: byte)
    ensures b as nat == Low7(b) + if More(b) then 128 else 0
  {
  }

  /** All bytes but the last continue. */
  predicate IsVarint(s: seq<byte>) {
    |s| > 0 && !More(s[|s| - 1]) && forall i :: 0 <= i < |s| - 1 ==> More(s[i])
  }

  /** The number the groups of seven bits spell, least significant first. */
  function Value(s: seq<byte>): nat {
    if s == [] then 0 else Low7(s[0]) + 128 * Value(s[1..])
  }

  lemma {:induction false} ValueAppend(s: seq<byte>, b: byte)
    ensures Value(s + [b]) == Value(s) + Low7(b) * Pow2(7 * |s|)
    ensures Value(s) < Pow2(7 * |s|)
  {
    if s == [] {
      assert s + [b] == [b] && [b][1..] == [];
    } else {
      ValueAppend(s[1..], b);
      assert (s + [b])[1..] == s[1..] + [b];
      Pow2Times128(7 * |s[1..]|);
      Regroup(Low7(b), Pow2(7 * |s[1..]|));
    }
  }

  lemma Pow2Times128(k: nat)
    ensures Pow2(k + 7) == 128 * Pow2(k)
  {
    assert Pow2(k + 7) == 2 * Pow2(k + 6) == 4 * Pow2(k + 5) == 8 * Pow2(k + 4);
    assert Pow2(k + 4) == 2 * Pow2(k + 3) == 4 * Pow2(k + 2) == 8 * Pow2(k + 1);
  }

  lemma Regroup(a: int, p: int)
    ensures 128 * (a * p) == a * (128 * p)
  {
  }

  // ----- 64-bit arithmetic on naturals -----

  const TWO64: nat := 0x1_0000_0000_0000_0000

  /** Bitwise or. */
  function Or(a: nat, b: nat): nat {
    if a == 0 && b == 0 then 0
    else (if a % 2 == 1 || b % 2 == 1 then 1 else 0) + 2 * Or(a / 2, b / 2)
  }

  /** b << k, truncated to 64 bits. */
  function Shl(b: nat, k: nat): nat {
    b * Pow2(k) % TWO64
  }

  /** a - b, wrapping around at 64 bits. */
  function Sub(a: nat, b: nat): nat {
    (a - b) % TWO64
  }

  lemma {:induction false} OrZero(b: nat)
    ensures Or(0, b) == b
  {
    if b != 0 {
      OrZero(b / 2);
    }
  }

  /** Or-ing above the bits in use adds. */
  lemma {:induction false} OrAbove(a: nat, b: nat, k: nat)
    requires a < Pow2(k)
    ensures Or(a, b * Pow2(k)) == a + b * Pow2(k)
  {
    if k == 0 {
      OrZero(b * Pow2(0));
    } else {
      var h := b * Pow2(k - 1);
      Double(b, Pow2(k - 1));
      OrAbove(a / 2, b, k - 1);
      if a == 0 && h == 0 {
      } else {
        assert (2 * h) / 2 == h;
        assert Or(a, 2 * h) == a % 2 + 2 * Or(a / 2, h);
      }
    }
  }

  lemma Double(b: int, p: int)
    ensures b * (2 * p) == 2 * (b * p)
  {
  }

  lemma {:induction false} Pow2Monotone(j: nat, k: nat)
    requires j <= k
    ensures Pow2(j) <= Pow2(k)
    decreases k
  {
    if j < k {
      Pow2Monotone(j, k - 1);
    }
  }

  lemma Pow2At56()
    ensures Pow2(56) == 0x100_0000_0000_0000
  {
    Pow2Times128(0);
    Pow2Times128(7);
    Pow2Times128(14);
    assert Pow2(21) == 0x20_0000;
    Pow2Times128(21);
    Pow2Times128(28);
    assert Pow2(35) == 0x8_0000_0000;
    Pow2Times128(35);
    Pow2Times128(42);
    Pow2Times128(49);
  }

  /** Within the first nine bytes a shifted byte keeps all its bits. */
  lemma ShlFits(b: nat, i: nat)
    requires i <= 8 && b < 256
    ensures Shl(b, 7 * i) == b * Pow2(7 * i)
    ensures b <= 128 ==> b * Pow2(7 * i) <= TWO64 / 2
  {
    var p := Pow2(7 * i);
    Pow2At56();
    Pow2Monotone(7 * i, 56);
    MulLess(b, 256, p);
    MulLess(b, 129, p);
    if b <= 128 {
      MulLess(b, 128, p);
    }
  }

  /** x |= b << (7 * i) for one of the first nine bytes, and the subtraction of its sign bit. */
  lemma AccumulateByte(x: nat, b: nat, i: nat)
    requires i <= 8 && x < Pow2(7 * i) && b < 256
    ensures Or(x, Shl(b, 7 * i)) == x + b * Pow2(7 * i)
    ensures b >= 128 ==> Sub(x + b * Pow2(7 * i), Shl(128, 7 * i)) == x + (b - 128) * Pow2(7 * i)
  {
    hide Shl, Or;
    ShlFits(b, i);
    OrAbove(x, b, 7 * i);
    if b >= 128 {
      ShlFits(128, i);
      ShlFits(b - 128, i);
      Distribute(b - 128, 128, Pow2(7 * i));
      Pow2At56();
      Pow2Monotone(7 * i, 56);
      SubExact(x + b * Pow2(7 * i), 128 * Pow2(7 * i), x + (b - 128) * Pow2(7 * i));
    }
  }

  lemma SubExact(a: nat, b: nat, d: nat)
    requires a == b + d && d < TWO64
    ensures Sub(a, b) == d
  {
  }

  lemma MulLess(a: int, b: int, p: int)
    requires 0 <= a && p > 0
    ensures a <= b ==> 0 <= a * p <= b * p
    ensures a < b ==> a * p < b * p
  {
  }

  // ----- The parser -----

  /** Bytes past the end of the input that may be read (RelocatePageBoundary). */
  const PADDING: nat := 9

  /** How many bytes from ptr up to and including the first that does not continue; limit + 1 if none of `limit` is. */
  function VarintLength(mem: seq<byte>, ptr: nat, limit: nat): (n: nat)
    requires ptr + limit <= |mem|
    ensures 1 <= n <= limit + 1
    decreases limit
  {
    if limit == 0 || !More(mem[ptr]) then 1 else 1 + VarintLength(mem, ptr + 1, limit - 1)
  }

  lemma {:induction false} LengthIsVarint(mem: seq<byte>, ptr: nat, limit: nat)
    requires ptr + limit <= |mem| && VarintLength(mem, ptr, limit) <= limit
    ensures IsVarint(mem[ptr..ptr + VarintLength(mem, ptr, limit)])
    decreases limit
  {
    hide More;
    var n := VarintLength(mem, ptr, limit);
    if More(mem[ptr]) {
      LengthIsVarint(mem, ptr + 1, limit - 1);
      assert mem[ptr..ptr + n] == [mem[ptr]] + mem[ptr + 1..ptr + n];
    }
  }

  /**
   The outcome of parseVarint at ptr < end. Up to nine bytes must lie before the end. The tenth byte is read
   without that check, so nine continuing bytes right before the end are judged by the byte after the end.
   */
  function VarintAt(mem: seq<byte>, ptr: nat, end: nat): (r: Parsed<nat>)
    requires ptr < end && end + PADDING <= |mem|
  {
    var n := VarintLength(mem, ptr, 10);
    if n <= 9 && ptr + n <= end then Ok(Value(mem[ptr..ptr + n]), ptr + n)
    else if end - ptr <= 8 then Err(Truncated)
    else if n == 10 && mem[ptr + 9] <= 1 then Ok(Value(mem[ptr..ptr + 10]), ptr + 10)
    else Err(Overflow)
  }

  lemma {:induction false} LengthAfter(mem: seq<byte>, ptr: nat, limit: nat, i: nat)
    requires ptr + limit <= |mem| && i <= limit
    requires forall j :: ptr <= j < ptr + i ==> More(mem[j])
    ensures VarintLength(mem, ptr, limit) == i + VarintLength(mem, ptr + i, limit - i)
    decreases i
  {
    if i > 0 {
      LengthAfter(mem, ptr + 1, limit - 1, i - 1);
    }
  }

  /** A varint that fits is found whole: its length and its value are the parser's result. */
  lemma {:induction false} LengthOfVarint(mem: seq<byte>, ptr: nat, n: nat, limit: nat)
    requires n <= limit && ptr + limit <= |mem| && IsVarint(mem[ptr..ptr + n])
    ensures VarintLength(mem, ptr, limit) == n
  {
    var s := mem[ptr..ptr + n];
    forall j | ptr <= j < ptr + n - 1
      ensures More(mem[j])
    {
      assert mem[j] == s[j - ptr];
    }
    LengthAfter(mem, ptr, limit, n - 1);
    assert mem[ptr + n - 1] == s[n - 1];
  }

  lemma LengthHere(mem: seq<byte>, ptr: nat, i: nat)
    requires i <= 9 && ptr + 10 <= |mem|
    requires forall j :: ptr <= j < ptr + i ==> More(mem[j])
    ensures !More(mem[ptr + i]) ==> VarintLength(mem, ptr, 10) == i + 1
    ensures More(mem[ptr + i]) ==> VarintLength(mem, ptr, 10) > i + 1
    ensures VarintLength(mem, ptr, 10) > i
  {
    LengthAfter(mem, ptr, 10, i);
  }

  lemma AccumulateTenth(x: nat, b: byte)
    requires x < Pow2(63) && b <= 1
    ensures !More(b) && Low7(b) == b as nat
    ensures Or(x, Shl(b as nat, 63)) == x + Low7(b) * Pow2(63)
  {
    Pow2At56();
    Pow2Times128(56);
    ByteValue(b);
    assert b as nat <= 1;
    OrAbove(x, b as nat, 63);
  }

  method ParseVarint(mem: seq<byte>, ptr: nat, end: nat) returns (r: Parsed<nat>)
    requires ptr < end && end + PADDING <= |mem|
    ensures r == VarintAt(mem, ptr, end)
  {
    hide Or, Shl, Sub, More, Low7, Value, Pow2, VarintLength, IsVarint;
    var x, p := 0, ptr;
    ValueNone(mem, ptr);
    for i := 0 to 9
      invariant p == ptr + i <= end
      invariant x == Value(mem[ptr..p]) && x < Pow2(7 * i)
      invariant forall j :: ptr <= j < p ==> More(mem[j])
    {
      LengthHere(mem, ptr, i);
      if i > 0 && p == end {
        return Err(Truncated);
      }
      var b := mem[p];
      ByteValue(b);
      AccumulateByte(x, b as nat, i);
      ValueStep(mem, ptr, i);
      p := p + 1;
      x := Or(x, Shl(b as nat, 7 * i));
      if !More(b) {
        return Ok(x, p);
      }
      x := Sub(x, Shl(0x80, 7 * i));
    }
    LengthHere(mem, ptr, 9);
    var b := mem[p];
    if b <= 1 {
      AccumulateTenth(x, b);
      ValueStep(mem, ptr, 9);
    }
    p := p + 1;
    x := Or(x, Shl(b as nat, 63));
    if b <= 1 {
      return Ok(x, p);
    }
    return Err(Overflow);
  }

  lemma ValueNone(mem: seq<byte>, ptr: nat)
    requires ptr <= |mem|
    ensures Value(mem[ptr..ptr]) == 0 && Pow2(0) == 1
  {
    assert mem[ptr..ptr] == [];
  }

  lemma ValueStep(mem: seq<byte>, ptr: nat, i: nat)
    requires ptr + i < |mem|
    ensures Value(mem[ptr..ptr + i + 1]) == Value(mem[ptr..ptr + i]) + Low7(mem[ptr + i]) * Pow2(7 * i)
    ensures Value(mem[ptr..ptr + i + 1]) < Pow2(7 * (i + 1))
  {
    ValueAppend(mem[ptr..ptr + i], mem[ptr + i]);
    ValueAppend(mem[ptr..ptr + i + 1], 0);
    assert mem[ptr..ptr + i + 1] == mem[ptr..ptr + i] + [mem[ptr + i]];
  }

  // ----- The canonical encoding -----

  /** The byte with value n, bit by bit. */
  function ByteOf(n: nat): byte
    requires n < 256
  {
    if n == 0 then 0 else if n % 2 == 0 then ByteOf(n / 2) << 1 else (ByteOf(n / 2) << 1) | 1
  }

  /** protowire.AppendVarint. */
  function Encode(v: nat): seq<byte> {
    if v < 128 then [ByteOf(v)] else [ByteOf(128 + v % 128)] + Encode(v / 128)
  }

  lemma AppendBit(b: byte)
    requires b < 0x80
    ensures (b << 1) as nat == 2 * (b as nat) && ((b << 1) | 1) as nat == 2 * (b as nat) + 1
  {
  }

  lemma SmallByte(b: byte)
    ensures b as nat < 128 ==> b < 0x80
  {
  }

  lemma {:induction false} ByteOfValue(n: nat)
    requires n < 256
    ensures ByteOf(n) as nat == n
  {
    if n > 0 {
      ByteOfValue(n / 2);
      SmallByte(ByteOf(n / 2));
      AppendBit(ByteOf(n / 2));
    }
  }

  lemma ByteOfParts(n: nat)
    requires n < 256
    ensures More(ByteOf(n)) <==> n >= 128
    ensures Low7(ByteOf(n)) == n % 128
  {
    hide ByteOf, More, Low7;
    ByteOfValue(n);
    ByteValue(ByteOf(n));
  }

  lemma {:induction false} EncodeExact(v: nat)
    ensures IsVarint(Encode(v)) && Value(Encode(v)) == v
    decreases v
  {
    hide ByteOf, More, Low7;
    if v < 128 {
      ByteOfParts(v);
      assert [ByteOf(v)][1..] == [];
    } else {
      ByteOfParts(128 + v % 128);
      EncodeExact(v / 128);
      assert Encode(v)[1..] == Encode(v / 128);
    }
  }

  lemma {:induction false} EncodeLength(v: nat, k: nat)
    requires v < Pow2(7 * k) && k >= 1
    ensures |Encode(v)| <= k
    decreases k
  {
    assert Pow2(7) == 128 by { Pow2Times128(0); }
    if k > 1 && v >= 128 {
      Pow2Times128(7 * (k - 1));
      EncodeLength(v / 128, k - 1);
    }
  }

  lemma EncodeAtMostTen(v: nat)
    requires v < TWO64
    ensures |Encode(v)| <= 10
  {
    Pow2At56();
    Pow2Times128(56);
    assert Pow2(64) == 2 * Pow2(63);
    Pow2Monotone(64, 70);
    EncodeLength(v, 10);
  }

  /** Parsing undoes encoding for every 64-bit value, wherever the encoding stands in the input. */
  lemma ParseEncode(v: nat, mem: seq<byte>, ptr: nat, end: nat)
    requires v < TWO64 && ptr + |Encode(v)| <= end && end + PADDING <= |mem|
    requires mem[ptr..ptr + |Encode(v)|] == Encode(v)
    ensures ptr < end && VarintAt(mem, ptr, end) == Ok(v, ptr + |Encode(v)|)
  {
    hide ByteOf, More, Low7, Encode, Value, VarintLength;
    EncodeExact(v);
    EncodeAtMostTen(v);
    LengthOfVarint(mem, ptr, |Encode(v)|, 10);
    if |Encode(v)| == 10 {
      TenthOfSmall(mem, ptr);
    }
  }

  /** The tenth byte of a ten-byte varint below 2^64 is at most 1. */
  lemma TenthOfSmall(mem: seq<byte>, ptr: nat)
    requires ptr + 10 <= |mem| && IsVarint(mem[ptr..ptr + 10]) && Value(mem[ptr..ptr + 10]) < TWO64
    ensures mem[ptr + 9] <= 1
  {
    ValueStep(mem, ptr, 9);
    Pow2At56();
    Pow2Times128(56);
    assert !More(mem[ptr + 9]) by { assert mem[ptr + 9] == mem[ptr..ptr + 10][9]; }
    ByteValue(mem[ptr + 9]);
  }

  /** The parser returns the base-128 value and the length of every varint of at most 64 bits before the end. */
  lemma ParseExact(mem: seq<byte>, ptr: nat, end: nat, n: nat)
    requires ptr + n <= end && end + PADDING <= |mem| && IsVarint(mem[ptr..ptr + n])
    requires n <= 10 && Value(mem[ptr..ptr + n]) < TWO64
    ensures VarintAt(mem, ptr, end) == Ok(Value(mem[ptr..ptr + n]), ptr + n)
  {
    hide More, Low7;
    LengthOfVarint(mem, ptr, n, 10);
    if n == 10 {
      TenthOfSmall(mem, ptr);
    }
  }
}
