/** The word-at-a-time tag decoder of the parser loop (internal/tdp/vm/run.go). */
module TagSwar {
  import opened Base128
  import opened Words

  const ALL_ONES: word := 0xffff_ffff_ffff_ffff

  /** The loaded word with every sign bit flipped: clear where a varint byte continues. */
  function Flip(w: word): word {
    w ^ SIGN_BITS
  }

  /** Bit position of the first sign bit that was clear; 64 when all eight were set. */
  function TagBits(w: word): nat {
    TrailingZeros(Flip(w) & SIGN_BITS)
  }

  /** Flip(w) with everything above the first terminator byte cleared; the & 63 makes a shift by 64 a shift by 0. */
  function Masked(w: word): word
    requires TagBits(w) <= 64
  {
    Flip(w) & !(ALL_ONES << (TagBits(w) % 64))
  }

  /** The first n - 1 bytes of w continue and the n-th does not. */
  predicate Terminates(w: word, n: nat)
    requires 1 <= n <= 8
  {
    && !More(Byte(w, n - 1))
    && (n > 1 ==> More(Byte(w, 0)))
    && (n > 2 ==> More(Byte(w, 1)))
    && (n > 3 ==> More(Byte(w, 2)))
    && (n > 4 ==> More(Byte(w, 3)))
    && (n > 5 ==> More(Byte(w, 4)))
    && (n > 6 ==> More(Byte(w, 5)))
    && (n > 7 ==> More(Byte(w, 6)))
  }

  lemma TagBitsExact(w: word, n: nat)
    requires 1 <= n <= 8 && Terminates(w, n)
    ensures TagBits(w) == 8 * n - 1
  {
    match n
    case 1 =>
    case 2 =>
    case 3 =>
    case 4 =>
    case 5 =>
    case 6 =>
    case 7 =>
    case 8 =>
  }

  /** The bits below the n-th terminator's sign bit. */
  function LowBits(n: nat): word
    requires 1 <= n <= 8
  {
    match n
    case 1 => 0x7f
    case 2 => 0x7fff
    case 3 => 0x7f_ffff
    case 4 => 0x7fff_ffff
    case 5 => 0x7f_ffff_ffff
    case 6 => 0x7fff_ffff_ffff
    case 7 => 0x7f_ffff_ffff_ffff
    case _ => 0x7fff_ffff_ffff_ffff
  }

  lemma ShiftedOnes(n: nat)
    requires 1 <= n <= 8
    ensures !(ALL_ONES << ((8 * n - 1) % 64)) == LowBits(n)
  {
    match n
    case 1 =>
    case 2 =>
    case 3 =>
    case 4 =>
    case 5 =>
    case 6 =>
    case 7 =>
    case 8 =>
  }

  lemma MaskedLow(w: word, n: nat)
    requires 1 <= n <= 8 && TagBits(w) == 8 * n - 1
    ensures Masked(w) == AndWords(Flip(w), LowBits(n))
  {
    hide TagBits, Flip, LowBits;
    ShiftedOnes(n);
  }

  lemma LowBitsByte(n: nat, j: nat)
    requires 1 <= n <= 8 && j < 8
    ensures Byte(LowBits(n), j) == if j + 1 < n then 0xff else if j + 1 == n then 0x7f else 0
  {
  }

  lemma FlipByte(w: word, j: nat)
    requires j < 8
    ensures Byte(Flip(w), j) == Byte(w, j) ^ 0x80
  {
    hide Byte;
    XorByte(w, SIGN_BITS, j);
    SignBitsByte(j);
  }

  lemma SignBitsByte(j: nat)
    requires j < 8
    ensures Byte(SIGN_BITS, j) == 0x80
  {
  }

  lemma FlipContinues(b: byte)
    ensures More(b) ==> AndBytes(b ^ 0x80, 0xff) == b & 0x7f
    ensures AndBytes(b ^ 0x80, 0x7f) == b & 0x7f
    ensures AndBytes(b ^ 0x80, 0) == 0
    ensures More(b) ==> b ^ 0x80 == b & 0x7f
  {
  }

  /** Byte j of the masked word is the j-th group of seven bits, and zero past the terminator. */
  lemma MaskedByte(w: word, n: nat, j: nat)
    requires 1 <= n <= 8 && Terminates(w, n) && j < 8
    ensures TagBits(w) == 8 * n - 1
    ensures Byte(Masked(w), j) == if j < n then Byte(w, j) & 0x7f else 0
  {
    TagBitsExact(w, n);
    if j + 1 < n {
      TerminatesBelow(w, n, j);
    }
    hide Byte, Masked, TagBits, Flip, LowBits, AndWords, AndBytes, Terminates, More;
    MaskedLow(w, n);
    AndByte(Flip(w), LowBits(n), j);
    LowBitsByte(n, j);
    FlipByte(w, j);
    FlipContinues(Byte(w, j));
  }

  lemma TerminatesBelow(w: word, n: nat, j: nat)
    requires 1 <= n <= 8 && Terminates(w, n) && j + 1 < n
    ensures More(Byte(w, j))
  {
    hide Byte, More;
  }

  /** With all eight sign bits set there is no bit left to find. */
  lemma TagBitsNone(w: word)
    requires More(Byte(w, 0)) && More(Byte(w, 1)) && More(Byte(w, 2)) && More(Byte(w, 3))
    requires More(Byte(w, 4)) && More(Byte(w, 5)) && More(Byte(w, 6)) && More(Byte(w, 7))
    ensures TagBits(w) == 64
  {
  }
}
