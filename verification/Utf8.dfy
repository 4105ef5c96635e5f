/** UTF-8 validation (internal/tdp/vm/utf8.go) against the grammar of section 4 of RFC 3629. */
module Utf8 {
  import opened Base128
  import opened Words

  // ----- The grammar -----

  predicate Tail(b: byte) {
    0x80 <= b <= 0xbf
  }

  predicate Two(a: byte, b: byte) {
    0xc2 <= a <= 0xdf && Tail(b)
  }

  predicate Three(a: byte, b: byte, c: byte) {
    || (a == 0xe0 && 0xa0 <= b <= 0xbf && Tail(c))
    || (0xe1 <= a <= 0xec && Tail(b) && Tail(c))
    || (a == 0xed && 0x80 <= b <= 0x9f && Tail(c))
    || (0xee <= a <= 0xef && Tail(b) && Tail(c))
  }

  predicate Four(a: byte, b: byte, c: byte, d: byte) {
    || (a == 0xf0 && 0x90 <= b <= 0xbf && Tail(c) && Tail(d))
    || (0xf1 <= a <= 0xf3 && Tail(b) && Tail(c) && Tail(d))
    || (a == 0xf4 && 0x80 <= b <= 0x8f && Tail(c) && Tail(d))
  }

  /** The length of the UTF8-char that starts at p and ends by e; 0 if there is none. */
  function CharLength(mem: seq<byte>, p: nat, e: nat): (n: nat)
    requires p < e <= |mem|
    ensures p + n <= e
  {
    if mem[p] <= 0x7f then 1
    else if p + 2 <= e && Two(mem[p], mem[p + 1]) then 2
    else if p + 3 <= e && Three(mem[p], mem[p + 1], mem[p + 2]) then 3
    else if p + 4 <= e && Four(mem[p], mem[p + 1], mem[p + 2], mem[p + 3]) then 4
    else 0
  }

  /** mem[p..e] is a sequence of UTF8-chars. */
  predicate WellFormed(mem: seq<byte>, p: nat, e: nat)
    requires p <= e <= |mem|
    decreases e - p
  {
    p == e || (CharLength(mem, p, e) > 0 && WellFormed(mem, p + CharLength(mem, p, e), e))
  }

  // ----- The table of rune lengths -----

  /** utf8.RuneLen. */
  function RuneLen(r: int): int {
    if r < 0 then -1
    else if r <= 0x7f then 1
    else if r <= 0x7ff then 2
    else if 0xd800 <= r <= 0xdfff then -1
    else if r <= 0xffff then 3
    else if r <= 0x10ffff then 4
    else -1
  }

  /** How many bytes encode the runes that need k bits; 0 when none does. */
  function BytesForBits(k: nat): nat {
    if k <= 7 then 1 else if k <= 11 then 2 else if k <= 16 then 3 else if k <= 21 then 4 else 0
  }

  /** rune(1) << i, for a 32-bit signed rune. */
  function OneShifted(i: nat): int {
    if i < 8 then [0x1, 0x2, 0x4, 0x8, 0x10, 0x20, 0x40, 0x80][i]
    else if i < 31 then 256 * OneShifted(i - 8)
    else if i == 31 then -0x8000_0000
    else 0
  }

  method RuneBytesForBits() returns (table: seq<nat>)
    ensures |table| == 34 && forall k :: 0 <= k < 34 ==> table[k] == BytesForBits(k)
  {
    table := seq(34, _ => 0);
    table := table[0 := 1];
    for i := 0 to 33
      invariant |table| == 34 && i <= 21
      invariant forall k :: 0 <= k < 34 ==> table[k] == if k <= i then BytesForBits(k) else 0
    {
      var n := RuneLen(OneShifted(i));
      OneShiftedLength(i);
      if n < 0 {
        break;
      }
      table := table[i + 1 := n];
    }
  }

  lemma OneShiftedLength(i: nat)
    requires i <= 21
    ensures RuneLen(OneShifted(i)) == if i == 21 then -1 else BytesForBits(i + 1)
  {
    assert OneShifted(i) == if i < 8 then [0x1, 0x2, 0x4, 0x8, 0x10, 0x20, 0x40, 0x80][i] else 256 * OneShifted(i - 8);
    if 8 <= i < 16 {
      assert OneShifted(i - 8) == [0x1, 0x2, 0x4, 0x8, 0x10, 0x20, 0x40, 0x80][i - 8];
    } else if i >= 16 {
      assert OneShifted(i - 8) == 256 * OneShifted(i - 16);
      assert OneShifted(i - 16) == [0x1, 0x2, 0x4, 0x8, 0x10, 0x20, 0x40, 0x80][i - 16];
    }
  }

  // ----- Decoding one rune -----

  type rune = bv32

  /** bits.Len32. */
  function Len32(r: rune): nat {
    if r >= 0x80000000 then 32 else if r >= 0x40000000 then 31 else if r >= 0x20000000 then 30
    else if r >= 0x10000000 then 29 else if r >= 0x8000000 then 28 else if r >= 0x4000000 then 27
    else if r >= 0x2000000 then 26 else if r >= 0x1000000 then 25 else if r >= 0x800000 then 24
    else if r >= 0x400000 then 23 else if r >= 0x200000 then 22 else if r >= 0x100000 then 21
    else if r >= 0x80000 then 20 else if r >= 0x40000 then 19 else if r >= 0x20000 then 18
    else if r >= 0x10000 then 17 else if r >= 0x8000 then 16 else if r >= 0x4000 then 15
    else if r >= 0x2000 then 14 else if r >= 0x1000 then 13 else if r >= 0x800 then 12
    else if r >= 0x400 then 11 else if r >= 0x200 then 10 else if r >= 0x100 then 9
    else if r >= 0x80 then 8 else if r >= 0x40 then 7 else if r >= 0x20 then 6
    else if r >= 0x10 then 5 else if r >= 0x8 then 4 else if r >= 0x4 then 3
    else if r >= 0x2 then 2 else if r >= 0x1 then 1
    else 0
  }

  /** bits.LeadingZeros8(^first). */
  function LeadingOnes(b: byte): nat {
    if b & 0x80 == 0 then 0 else if b & 0x40 == 0 then 1 else if b & 0x20 == 0 then 2
    else if b & 0x10 == 0 then 3 else if b & 0x08 == 0 then 4 else if b & 0x04 == 0 then 5
    else if b & 0x02 == 0 then 6 else if b & 0x01 == 0 then 7 else 8
  }

  function Load32(b0: byte, b1: byte, b2: byte, b3: byte): bv32 {
    (b0 as bv32) | ((b1 as bv32) << 8) | ((b2 as bv32) << 16) | ((b3 as bv32) << 24)
  }

  datatype Decoding = Decoding(r: rune, raw: bv32, ok: bool)

  /** The contents of the first byte. */
  function Start(raw: bv32, count: nat): Decoding {
    Decoding(raw & (if count == 2 then 0x3f else if count == 3 then 0x1f else 0xf), raw, true)
  }

  /** One round of the decode loop. */
  function Step(d: Decoding): Decoding {
    var raw := d.raw >> 8;
    Decoding((d.r << 6) | (raw & 0x3f), raw, d.ok && raw & 0xc0 == 0x80)
  }

  function Steps(d: Decoding, k: nat): Decoding {
    if k == 0 then d else Step(Steps(d, k - 1))
  }

  /** The checks after the decode loop. */
  predicate Accepted(d: Decoding, count: nat) {
    d.ok && BytesForBits(Len32(d.r)) == count && d.r & !0x7ff != 0xd800 && d.r <= 0x10ffff
  }

  lemma TwoExact(b0: byte, b1: byte, b2: byte, b3: byte)
    ensures LeadingOnes(b0) == 2 && Accepted(Step(Start(Load32(b0, b1, b2, b3), 2)), 2) <==> Two(b0, b1)
  {
  }

  lemma ThreeExact(b0: byte, b1: byte, b2: byte, b3: byte)
    ensures LeadingOnes(b0) == 3 && Accepted(Step(Step(Start(Load32(b0, b1, b2, b3), 3))), 3) <==> Three(b0, b1, b2)
  {
  }

  lemma FourExact(b0: byte, b1: byte, b2: byte, b3: byte)
    ensures LeadingOnes(b0) == 4 && Accepted(Step(Step(Step(Start(Load32(b0, b1, b2, b3), 4)))), 4) <==>
            Four(b0, b1, b2, b3)
  {
  }

  lemma LeadingExact(b: byte)
    ensures More(b) ==> LeadingOnes(b) >= 1
    ensures 0xc2 <= b <= 0xdf ==> LeadingOnes(b) == 2
    ensures 0xe0 <= b <= 0xef ==> LeadingOnes(b) == 3
    ensures 0xf0 <= b <= 0xf4 ==> LeadingOnes(b) == 4
    ensures More(b) <==> b > 0x7f
  {
  }

  /** The decoder's verdict on count bytes at p is the grammar's. */
  lemma RuneExact(mem: seq<byte>, p: nat, e: nat, count: nat)
    requires p + 4 <= |mem| && p + count <= e <= |mem| && 2 <= count <= 4
    requires More(mem[p]) && LeadingOnes(mem[p]) == count
    ensures var d := Steps(Start(Load32(mem[p], mem[p + 1], mem[p + 2], mem[p + 3]), count), count - 1);
            CharLength(mem, p, e) == if Accepted(d, count) then count else 0
  {
    hide Two, Three, Four, Accepted, Step, Start, Load32, LeadingOnes, More;
    var b0, b1, b2, b3 := mem[p], mem[p + 1], mem[p + 2], mem[p + 3];
    var d0 := Start(Load32(b0, b1, b2, b3), count);
    assert Steps(d0, 1) == Step(Steps(d0, 0)) && Steps(d0, 0) == d0;
    assert Steps(d0, 2) == Step(Steps(d0, 1));
    assert Steps(d0, 3) == Step(Steps(d0, 2));
    LeadingExact(b0);
    TwoExact(b0, b1, b2, b3);
    ThreeExact(b0, b1, b2, b3);
    FourExact(b0, b1, b2, b3);
  }

  /** A first byte that announces none of two to four bytes, or more bytes than are left, starts no character. */
  lemma NoRune(mem: seq<byte>, p: nat, e: nat)
    requires p < e <= |mem| && More(mem[p])
    requires LeadingOnes(mem[p]) < 2 || LeadingOnes(mem[p]) > 4 || e - p < LeadingOnes(mem[p])
    ensures CharLength(mem, p, e) == 0
  {
    LeadingExact(mem[p]);
    hide LeadingOnes, More, Tail;
  }

  // ----- Runs of ASCII -----

  /** The sign bits of the n low bytes. */
  function SignMask(n: nat): word
    requires n <= 8
  {
    SIGN_BITS >> ((8 - n) * 8)
  }

  function LowSigns(n: nat): word
    requires 1 <= n <= 8
  {
    match n
    case 1 => 0x80
    case 2 => 0x8080
    case 3 => 0x80_8080
    case 4 => 0x8080_8080
    case 5 => 0x80_8080_8080
    case 6 => 0x8080_8080_8080
    case 7 => 0x80_8080_8080_8080
    case _ => SIGN_BITS
  }

  lemma SignMaskLowHalf(n: nat)
    requires 1 <= n <= 4
    ensures SignMask(n) == LowSigns(n)
  {
    match n
    case 1 =>
    case 2 =>
    case 3 =>
    case 4 =>
  }

  lemma SignMaskLow(n: nat)
    requires 1 <= n <= 8
    ensures SignMask(n) == LowSigns(n)
  {
    match n
    case 5 =>
    case 6 =>
    case 7 =>
    case 8 =>
    case _ => SignMaskLowHalf(n);
  }

  lemma LowSignsByte(n: nat, j: nat)
    requires 1 <= n <= 8 && j < 8
    ensures Byte(LowSigns(n), j) == if j < n then 0x80 else 0
  {
  }

  lemma SignOfByte(b: byte)
    ensures AndBytes(b, 0x80) != 0 <==> More(b)
    ensures AndBytes(b, 0) == 0
  {
  }

  lemma SignedByte(mem: seq<byte>, p: nat, n: nat, j: nat)
    requires p + 8 <= |mem| && 1 <= n <= 8 && j < 8
    ensures Byte(AndWords(Load(mem, p), SignMask(n)), j) != 0 <==> j < n && More(mem[p + j])
  {
    hide Byte, Load, AndWords, AndBytes, SignMask, LowSigns, More;
    AndByte(Load(mem, p), SignMask(n), j);
    SignMaskLow(n);
    LowSignsByte(n, j);
    LoadByte(mem, p, j);
    SignOfByte(mem[p + j]);
  }

  /** Eight when the n bytes at p are all ASCII, else the number of ASCII bytes before the first that is not. */
  function AsciiCount(mem: seq<byte>, p: nat, n: nat): nat
    requires p + 8 <= |mem| && n <= 8
  {
    TrailingZeros(AndWords(Load(mem, p), SignMask(n))) / 8
  }

  lemma AsciiCountExact(mem: seq<byte>, p: nat, n: nat)
    requires p + 8 <= |mem| && 1 <= n <= 8
    ensures var a := AsciiCount(mem, p, n);
            && a <= 8
            && (a < 8 ==> a < n && More(mem[p + a]))
            && (forall s :: p <= s < p + a && s < p + n ==> !More(mem[s]))
  {
    hide Byte, Load, AndWords, SignMask, More, TrailingZeros, LowestByte;
    var w := AndWords(Load(mem, p), SignMask(n));
    TrailingZerosBytes(w);
    LowestByteExact(w);
    var a := LowestByte(w);
    if a < 8 {
      SignedByte(mem, p, n, a);
    }
    forall s | p <= s < p + a && s < p + n
      ensures !More(mem[s])
    {
      SignedByte(mem, p, n, s - p);
    }
  }

  lemma {:induction false} AsciiPrefix(mem: seq<byte>, p: nat, q: nat, e: nat)
    requires p <= q <= e <= |mem|
    requires forall s :: p <= s < q ==> !More(mem[s])
    ensures WellFormed(mem, p, e) == WellFormed(mem, q, e)
    decreases q - p
  {
    if p < q {
      LeadingExact(mem[p]);
      AsciiPrefix(mem, p + 1, q, e);
    }
  }

  // ----- The validator -----

  /** A byte range of the input: its start and its length. */
  datatype Range = Range(start: nat, len: nat)

  /** verifyUTF8 on the n bytes at ptr; no load goes beyond seven bytes past them. */
  method VerifyUTF8(mem: seq<byte>, ptr: nat, n: nat) returns (r: Parsed<Range>)
    requires ptr + n <= |mem| && (n > 0 ==> ptr + n + 7 <= |mem|)
    ensures r == if WellFormed(mem, ptr, ptr + n) then Ok(Range(if n == 0 then 0 else ptr, n), ptr + n)
            else Err(InvalidUTF8)
  {
    hide AsciiCount, More, WellFormed;
    if n == 0 {
      AsciiPrefix(mem, ptr, ptr, ptr);
      EmptyWellFormed(mem, ptr);
      return Ok(Range(0, 0), ptr);
    }
    var p, e := ptr, ptr + n;
    var e8 := ptr + n / 8 * 8;
    var wide := false;
    // Eight bytes at a time.
    while p < e8 && !wide
      invariant ptr <= p <= e8 && (e8 - p) % 8 == 0
      invariant forall s :: ptr <= s < p ==> !More(mem[s])
      decreases e8 - p, !wide
    {
      AsciiCountExact(mem, p, 8);
      AsciiWord(mem, p, 8);
      if AndWords(Load(mem, p), SIGN_BITS) != 0 {
        wide := true;
      } else {
        p := p + 8;
      }
    }
    // The zero to seven bytes that remain.
    if !wide && p < e {
      var left := e - p;
      AsciiCountExact(mem, p, left);
      AsciiWord(mem, p, left);
      if AndWords(Load(mem, p), SignMask(left)) != 0 {
        wide := true;
      } else {
        p := p + left;
      }
    }
    AsciiPrefix(mem, ptr, p, e);
    if !wide {
      EmptyWellFormed(mem, e);
      return Ok(Range(p - n, n), p);
    }
    r := VerifyRunes(mem, p, ptr, n);
  }

  /** The part of verifyUTF8 that decodes; errors in a rune are collected and reported at the end. */
  method VerifyRunes(mem: seq<byte>, start: nat, ptr: nat, n: nat) returns (r: Parsed<Range>)
    requires ptr <= start <= ptr + n && ptr + n + 7 <= |mem|
    ensures r == if WellFormed(mem, start, ptr + n) then Ok(Range(ptr, n), ptr + n) else Err(InvalidUTF8)
  {
    hide AsciiCount, More, LeadingOnes, Accepted, Step, Start, Load32, CharLength;
    var p, e, ok := start, ptr + n, true;
    while p < e
      invariant p <= e + 7
      invariant WellFormed(mem, start, e) <==> ok && WellFormed(mem, if p < e then p else e, e)
      decreases e - p
    {
      var left := if e - p < 8 then e - p else 8;
      var ascii := AsciiCount(mem, p, left);
      AsciiCountExact(mem, p, left);
      AsciiPrefix(mem, p, if p + ascii < e then p + ascii else e, e);
      p := p + ascii;
      if ascii == 8 {
        continue;
      }
      var first := mem[p];
      var count := LeadingOnes(first);
      if count < 2 || count > 4 || e - p < count {
        NoRune(mem, p, e);
        return Err(InvalidUTF8);
      }
      var d := Start(Load32(mem[p], mem[p + 1], mem[p + 2], mem[p + 3]), count);
      ghost var d0 := d;
      var i := count - 1;
      while i > 0
        invariant 0 <= i < count && d == Steps(d0, count - 1 - i)
      {
        d := Step(d);
        i := i - 1;
      }
      RuneExact(mem, p, e, count);
      if !Accepted(d, count) {
        ok := false;
      }
      p := p + count;
    }
    r := if ok then Ok(Range(e - n, n), e) else Err(InvalidUTF8);
  }

  lemma EmptyWellFormed(mem: seq<byte>, p: nat)
    requires p <= |mem|
    ensures WellFormed(mem, p, p)
  {
  }

  /** The masked word is zero iff all n bytes are ASCII. */
  lemma AsciiWord(mem: seq<byte>, p: nat, n: nat)
    requires p + 8 <= |mem| && 1 <= n <= 8
    ensures AndWords(Load(mem, p), SignMask(n)) == 0 <==> AsciiCount(mem, p, n) == 8
    ensures n == 8 ==> SignMask(n) == SIGN_BITS
  {
    hide Load, AndWords;
    SignMaskLow(8);
    TrailingZerosOfZero(AndWords(Load(mem, p), SignMask(n)));
  }

  lemma TrailingZerosOfZero(w: word)
    ensures w == 0 <==> TrailingZeros(w) / 8 == 8
  {
  }
}
