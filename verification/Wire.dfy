/** The wire format: tags, varints, ranges, groups and fixed numbers, written against the encoding rules alone. */
module Wire {
  import opened Base128
  import opened Words
  import opened Wrappers

  /** A varint of at most `limit` bytes and 64 bits between p and hi: its value and where it ends. */
  function VarintIn(mem: seq<byte>, p: nat, hi: nat, limit: nat): (r: Option<(nat, nat)>)
    requires hi + PADDING <= |mem| && limit <= 10
    ensures r.Some? ==> p < r.value.1 <= hi && r.value.1 <= p + limit && IsVarint(mem[p..r.value.1])
    ensures r.Some? ==> r.value.0 == Value(mem[p..r.value.1]) < TWO64
  {
    if p >= hi then None
    else
      var n := VarintLength(mem, p, limit);
      if n <= limit && p + n <= hi && Value(mem[p..p + n]) < TWO64 then
        LengthIsVarint(mem, p, limit);
        Some((Value(mem[p..p + n]), p + n))
      else None
  }

  /** A byte that does not continue is a varint of its own. */
  lemma OneByte(mem: seq<byte>, p: nat, e: nat)
    requires e + PADDING <= |mem| && p < e && !More(mem[p])
    ensures VarintIn(mem, p, e, 10) == Some((mem[p] as nat, p + 1))
  {
    hide Low7, More;
    assert VarintLength(mem, p, 10) == 1;
    var s := mem[p..p + 1];
    assert s[1..] == [] && Value(s) == Low7(s[0]);
    ByteValue(mem[p]);
  }

  /** A record's tag of at most nine bytes and 32 bits, with a nonzero field number. */
  function TagIn(mem: seq<byte>, p: nat, hi: nat): (r: Option<(nat, nat)>)
    requires hi + PADDING <= |mem|
    ensures r.Some? ==> p < r.value.1 <= hi && 8 <= r.value.0 < 0x1_0000_0000
  {
    match VarintIn(mem, p, hi, 9)
    case None => None
    case Some(t) => if 8 <= t.0 < 0x1_0000_0000 then Some(t) else None
  }

  /** A length-prefixed range between p and hi: where its contents start and end. */
  function BytesIn(mem: seq<byte>, p: nat, hi: nat): (r: Option<(nat, nat)>)
    requires hi + PADDING <= |mem|
    ensures r.Some? ==> p < r.value.0 <= r.value.1 <= hi
  {
    match VarintIn(mem, p, hi, 10)
    case None => None
    case Some(t) => if t.1 + t.0 <= hi then Some((t.1, t.1 + t.0)) else None
  }

  /** Where the body of a record with the given tag ends; groups may nest `depth` deep. */
  function BodyEnd(mem: seq<byte>, p: nat, hi: nat, tag: nat, depth: int): (r: Option<nat>)
    requires hi + PADDING <= |mem|
    ensures r.Some? ==> p < r.value <= hi
    decreases if hi >= p then hi - p else 0, 1
  {
    match tag % 8
    case 0 => (match VarintIn(mem, p, hi, 10) case None => None case Some(t) => Some(t.1))
    case 1 => if p + 8 <= hi then Some(p + 8) else None
    case 2 => (match BytesIn(mem, p, hi) case None => None case Some(t) => Some(t.1))
    case 3 => if depth < 0 then None else GroupEnd(mem, p, hi, tag / 8, depth)
    case 5 => if p + 4 <= hi then Some(p + 4) else None
    case _ => None
  }

  /** Where the group with the given field number, whose records start at p, ends: after its end tag. */
  function GroupEnd(mem: seq<byte>, p: nat, hi: nat, number: nat, depth: int): (r: Option<nat>)
    requires hi + PADDING <= |mem|
    ensures r.Some? ==> p < r.value <= hi
    decreases if hi >= p then hi - p else 0, 0
  {
    match VarintIn(mem, p, hi, 10)
    case None => None
    case Some(t) =>
      if t.0 == number * 8 + 4 then Some(t.1)
      else if t.0 < 8 || t.0 >= 0x1_0000_0000 then None
      else
        match BodyEnd(mem, t.1, hi, t.0, depth - 1)
        case None => None
        case Some(z) => GroupEnd(mem, z, hi, number, depth)
  }

  /** The values of the varints that fill p to e; None if they do not. */
  function Varints(mem: seq<byte>, p: nat, e: nat): (r: Option<seq<nat>>)
    requires e + PADDING <= |mem|
    decreases e - p
  {
    if p >= e then (if p == e then Some([]) else None)
    else
      match VarintIn(mem, p, e, 10)
      case None => None
      case Some(t) =>
        match Varints(mem, t.1, e)
        case None => None
        case Some(rest) => Some([t.0] + rest)
  }

  /** The number that n bytes at p hold. */
  function LittleEndian(mem: seq<byte>, p: nat, n: nat): nat
    requires p + n <= |mem|
    decreases n
  {
    if n == 0 then 0 else mem[p] as nat + 256 * LittleEndian(mem, p + 1, n - 1)
  }

  /** The first len numbers of unit bytes each from p on, as far as they lie in mem. */
  function Borrowed(mem: seq<byte>, p: nat, unit: nat, len: nat): (r: seq<nat>)
    decreases len
  {
    if len == 0 || p + unit > |mem| then []
    else [LittleEndian(mem, p, unit)] + Borrowed(mem, p + unit, unit, len - 1)
  }

  /** T(x), element by element, for an unsigned type of m values. */
  function Trunc(s: seq<nat>, m: nat): (r: seq<nat>)
    requires m > 0
    ensures |r| == |s|
  {
    if s == [] then [] else [s[0] % m] + Trunc(s[1..], m)
  }

  /** How many numbers fit in so many bytes. */
  function Limit(width: nat): (n: nat)
    ensures n > 0
  {
    if width == 0 then 1 else 256 * Limit(width - 1)
  }
}
