/**
 The values of singular fields and of map entries: how they are read, the words that are stored for them, and the
 slots of a message that hold the words (internal/tdp/thunks/singular.go, oneof.go and map.go).
 */
module Values {
  import opened Base128
  import opened Wire
  import opened Words
  import opened Wrappers
  import Bits
  import Utf8

  // ----- Reading -----

  /** How a value is encoded, and the size in bytes of the number that is stored for it. */
  datatype Kind = Varint(width: nat) | ZigZag(width: nat) | Bool | Fixed(width: nat) | Bytes | Text

  predicate KindOk(k: Kind) {
    match k
    case Varint(w) => w in {1, 4, 8}
    case ZigZag(w) => w in {4, 8}
    case Fixed(w) => w in {4, 8}
    case _ => true
  }

  /** The wire type of a kind. */
  function WireType(k: Kind): nat {
    match k
    case Fixed(w) => if w == 8 then 1 else 5
    case Bytes => 2
    case Text => 2
    case _ => 0
  }

  function WidthOf(k: Kind): nat {
    match k
    case Varint(w) => w
    case ZigZag(w) => w
    case Bool => 1
    case Fixed(w) => w
    case _ => 8
  }

  /** zigzag.Decode64: the bits of the signed number that a zigzag number of that width stands for. */
  function ZigZagBits(v: nat, width: nat): nat {
    var n := v % Limit(width);
    if n % 2 == 0 then n / 2 else Limit(width) - 1 - n / 2
  }

  /** The zigzag number of a signed one: 0, -1, 1, -2 and so on become 0, 1, 2, 3. */
  function ZigZagOf(i: int): nat {
    if i >= 0 then 2 * i else -2 * i - 1
  }

  /** Decoding undoes that, for every signed number of the width; negative ones are in two's complement. */
  lemma ZigZagExact(i: int, width: nat)
    requires width > 0 && 2 * i < Limit(width) && -2 * i <= Limit(width)
    ensures ZigZagOf(i) < Limit(width) && ZigZagBits(ZigZagOf(i), width) == if i >= 0 then i else Limit(width) + i
  {
    assert Limit(width) % 2 == 0;
    hide Limit;
    Bits.ModUnique(ZigZagOf(i), 0, ZigZagOf(i), Limit(width));
  }

  /** The word that is stored for a varint. */
  function VarintWord(k: Kind, v: nat): nat {
    match k
    case Varint(w) => v % Limit(w)
    case ZigZag(w) => ZigZagBits(v, w)
    case _ => if v == 0 then 0 else 1
  }

  /** zc.NewRaw: a range of the input as one word. */
  function RangeWord(start: nat, end: nat): nat
    requires start <= end
  {
    start + (end - start) * 0x1_0000_0000
  }

  /** zc.Range.Bytes: the bytes that such a word stands for. */
  function RangeBytes(mem: seq<byte>, word: nat): seq<byte> {
    var start, len := word % 0x1_0000_0000, word / 0x1_0000_0000;
    if start + len <= |mem| then mem[start..start + len] else []
  }

  /**
   What comes of reading: a malformed record, contents that the field does not admit, or a value and where it ends.
   */
  datatype Read<+T> = Broken | Refused | Got(value: T, end: nat)

  /** The value between p and hi. Text must be well-formed UTF-8, unless the parser is told to be lenient. */
  function ValueIn(mem: seq<byte>, k: Kind, p: nat, hi: nat, lenient: bool): (r: Read<nat>)
    requires hi + PADDING <= |mem| && KindOk(k)
    ensures r.Got? ==> p < r.end <= hi
  {
    match k
    case Fixed(w) => if p + w <= hi then Got(LittleEndian(mem, p, w), p + w) else Broken
    case Bytes =>
      (match BytesIn(mem, p, hi) case None => Broken case Some((s, z)) => Got(RangeWord(s, z), z))
    case Text =>
      (match BytesIn(mem, p, hi)
       case None => Broken
       case Some((s, z)) =>
         if lenient then Got(RangeWord(s, z), z)
         else if !Utf8.WellFormed(mem, s, z) then Refused
         else Got(if s == z then 0 else RangeWord(s, z), z))
    case _ =>
      match VarintIn(mem, p, hi, 10)
      case None => Broken
      case Some((v, z)) =>
        Got(VarintWord(k, v), z)
  }

  // ----- Slots -----

  /**
   The eight bytes of a slot: a number in the low `width` bytes, over zeros or over what is left of the address of a
   message.
   */
  datatype Cell = Cell(num: nat, width: nat, under: Option<nat>)

  /** A zeroed slot. */
  const ZERO := Cell(0, 0, None)

  function Address(msg: nat): Cell {
    Cell(0, 0, Some(msg))
  }

  /** A number without its remainder. */
  function HighPart(num: nat, m: nat): nat
    requires m > 0
  {
    assert num / m * m >= 0 by {
      if num / m > 0 {
        Bits.MulBounds(num / m, m);
      }
    }
    num / m * m
  }

  /** A store of a number of the given width into the low bytes of a slot. */
  function StoreNumber(c: Cell, v: nat, width: nat): Cell {
    if width >= 8 then Cell(v, width, None)
    else if width >= c.width then Cell(v, width, c.under)
    else c.(num := HighPart(c.num, Limit(width)) + v)
  }

  /** A load of a number of the given width. */
  function LoadNumber(c: Cell, width: nat): nat {
    c.num % Limit(width)
  }

  /** What a slot holds, read as the address of a message: nil, a message, or a number that is not an address. */
  datatype Pointer = Nil | To(msg: nat) | Stray

  /** Addresses do not fit in four bytes, so one that was stored to in part is neither nil nor a message. */
  function LoadPointer(c: Cell): Pointer {
    match c.under
    case Some(m) => if c.width == 0 then To(m) else Stray
    case None => if c.num == 0 then Nil else Stray
  }

  /** A number that was stored is loaded again, whatever the slot held. */
  lemma LoadStored(c: Cell, v: nat, width: nat)
    requires width in {1, 4, 8} && v < Limit(width)
    ensures LoadNumber(StoreNumber(c, v, width), width) == v
  {
    hide Limit;
    if width < 8 && width < c.width {
      var m := Limit(width);
      SumRemainder(c.num / m, v, m);
    } else {
      SumRemainder(0, v, Limit(width));
    }
  }

  lemma SumRemainder(q: nat, v: nat, m: nat)
    requires v < m
    ensures (q * m + v) % m == v
  {
    Bits.ModUnique(q * m + v, q, v, m);
  }
}
