/** Little-endian 64-bit words and their bytes. */
module Words {
  type byte = bv8
  type word = bv64

  const SIGN_BITS: word := 0x8080_8080_8080_8080

  /** The i-th byte of a word, counted from the low end. */
  function Byte(w: word, i: nat): byte
    requires i < 8
  {
    match i
    case 0 => (w & 0xff) as byte
    case 1 => ((w >> 8) & 0xff) as byte
    case 2 => ((w >> 16) & 0xff) as byte
    case 3 => ((w >> 24) & 0xff) as byte
    case 4 => ((w >> 32) & 0xff) as byte
    case 5 => ((w >> 40) & 0xff) as byte
    case 6 => ((w >> 48) & 0xff) as byte
    case _ => (w >> 56) as byte
  }

  /** The word an eight-byte load at p reads. */
  function Load(mem: seq<byte>, p: nat): word
    requires p + 8 <= |mem|
  {
    Join(mem[p], mem[p + 1], mem[p + 2], mem[p + 3], mem[p + 4], mem[p + 5], mem[p + 6], mem[p + 7])
  }

  function Join(b0: byte, b1: byte, b2: byte, b3: byte, b4: byte, b5: byte, b6: byte, b7: byte): word {
    (b0 as word) | ((b1 as word) << 8) | ((b2 as word) << 16) | ((b3 as word) << 24)
    | ((b4 as word) << 32) | ((b5 as word) << 40) | ((b6 as word) << 48) | ((b7 as word) << 56)
  }

  lemma JoinBytes(b0: byte, b1: byte, b2: byte, b3: byte, b4: byte, b5: byte, b6: byte, b7: byte)
    ensures var w := Join(b0, b1, b2, b3, b4, b5, b6, b7);
            Byte(w, 0) == b0 && Byte(w, 1) == b1 && Byte(w, 2) == b2 && Byte(w, 3) == b3 &&
            Byte(w, 4) == b4 && Byte(w, 5) == b5 && Byte(w, 6) == b6 && Byte(w, 7) == b7
  {
  }

  lemma LoadByte(mem: seq<byte>, p: nat, i: nat)
    requires p + 8 <= |mem| && i < 8
    ensures Byte(Load(mem, p), i) == mem[p + i]
  {
    hide Byte, Join;
    JoinBytes(mem[p], mem[p + 1], mem[p + 2], mem[p + 3], mem[p + 4], mem[p + 5], mem[p + 6], mem[p + 7]);
  }

  lemma XorByte(c: word, d: word, i: nat)
    requires i < 8
    ensures Byte(c ^ d, i) == Byte(c, i) ^ Byte(d, i)
  {
    match i
    case 0 =>
    case 1 =>
    case 2 =>
    case 3 =>
    case 4 =>
    case 5 =>
    case 6 =>
    case 7 =>
  }

  // Naming the conjunctions lets proofs treat them as atoms.

  function AndWords(c: word, d: word): word {
    c & d
  }

  function AndBytes(c: byte, d: byte): byte {
    c & d
  }

  lemma AndByteLow(c: word, d: word)
    ensures Byte(AndWords(c, d), 0) == AndBytes(Byte(c, 0), Byte(d, 0))
    ensures Byte(AndWords(c, d), 1) == AndBytes(Byte(c, 1), Byte(d, 1))
    ensures Byte(AndWords(c, d), 2) == AndBytes(Byte(c, 2), Byte(d, 2))
    ensures Byte(AndWords(c, d), 3) == AndBytes(Byte(c, 3), Byte(d, 3))
  {
  }

  lemma AndByteHigh(c: word, d: word)
    ensures Byte(AndWords(c, d), 4) == AndBytes(Byte(c, 4), Byte(d, 4))
    ensures Byte(AndWords(c, d), 5) == AndBytes(Byte(c, 5), Byte(d, 5))
    ensures Byte(AndWords(c, d), 6) == AndBytes(Byte(c, 6), Byte(d, 6))
    ensures Byte(AndWords(c, d), 7) == AndBytes(Byte(c, 7), Byte(d, 7))
  {
  }

  lemma AndByte(c: word, d: word, i: nat)
    requires i < 8
    ensures Byte(AndWords(c, d), i) == AndBytes(Byte(c, i), Byte(d, i))
  {
    hide Byte, AndWords, AndBytes;
    AndByteLow(c, d);
    AndByteHigh(c, d);
  }

  /** The number of zero bits below the lowest set bit; 64 for zero. */
  function TrailingZeros(w: word): nat {
    if w == 0 then 64
    else if w & 0xffff_ffff == 0 then 32 + TrailingZeros32(w >> 32)
    else TrailingZeros32(w & 0xffff_ffff)
  }

  function TrailingZeros32(w: word): nat
    requires w != 0
  {
    if w & 0xffff == 0 then 16 + TrailingZeros16(w >> 16) else TrailingZeros16(w & 0xffff)
  }

  function TrailingZeros16(w: word): nat {
    if w & 0xff == 0 then 8 + TrailingZeros8((w >> 8) & 0xff) else TrailingZeros8(w & 0xff)
  }

  function TrailingZeros8(w: word): nat {
    if w & 0x01 != 0 then 0 else if w & 0x02 != 0 then 1 else if w & 0x04 != 0 then 2 else if w & 0x08 != 0 then 3
    else if w & 0x10 != 0 then 4 else if w & 0x20 != 0 then 5 else if w & 0x40 != 0 then 6 else 7
  }

  /** The index of the lowest nonzero byte; 8 for zero. */
  function LowestByte(w: word): nat {
    if Byte(w, 0) != 0 then 0 else if Byte(w, 1) != 0 then 1 else if Byte(w, 2) != 0 then 2
    else if Byte(w, 3) != 0 then 3 else if Byte(w, 4) != 0 then 4 else if Byte(w, 5) != 0 then 5
    else if Byte(w, 6) != 0 then 6 else if Byte(w, 7) != 0 then 7 else 8
  }

  lemma TrailingZerosBytes(w: word)
    ensures TrailingZeros(w) / 8 == LowestByte(w)
  {
  }

  lemma LowestByteExact(w: word)
    ensures LowestByte(w) <= 8
    ensures forall j :: 0 <= j < LowestByte(w) ==> Byte(w, j) == 0
    ensures LowestByte(w) < 8 ==> Byte(w, LowestByte(w)) != 0
  {
    hide Byte;
  }
}
