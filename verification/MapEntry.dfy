/** The entries of maps with scalar, string or bytes values (internal/tdp/thunks/map.go). */
module MapEntry {
  import opened Base128
  import opened Values
  import opened Wire
  import opened Words
  import opened Wrappers

  /** Where the body of a record with an unexpected tag ends: protowire.ConsumeFieldValue. */
  type Skipper = (nat, nat, nat) -> Option<nat>

  /** What comes of an entry: a malformed record, text that is not UTF-8, or a key and a value. */
  datatype Entry = Broken | Refused | Entry(key: nat, value: nat)

  /** A key as it is compared: a number, or the contents of a range of the input. */
  datatype Key = Number(num: nat) | Chars(bytes: seq<byte>)

  /** The key a word stands for (extract). */
  function KeyOf(mem: seq<byte>, k: Kind, word: nat): Key {
    if k.Bytes? || k.Text? then Chars(RangeBytes(mem, word)) else Number(word)
  }

  /** Keys are field 1, values field 2. */
  function KeyTag(k: Kind): (tag: nat)
    requires KindOk(k)
    ensures 8 <= tag < 16
  {
    8 + WireType(k)
  }

  function ValueTag(k: Kind): (tag: nat)
    requires KindOk(k)
    ensures 16 <= tag < 24
  {
    16 + WireType(k)
  }

  /** The key and value of the entry between p and e: the last of each, or the ones given. */
  function EntryIn(mem: seq<byte>, p: nat, e: nat, ki: Kind, vi: Kind, lenient: bool, skip: Skipper, k: nat,
                   v: nat): Entry
    requires e + PADDING <= |mem| && KindOk(ki) && KindOk(vi)
    decreases e - p
  {
    if p >= e then (if p == e then Entry.Entry(k, v) else Entry.Broken)
    else
      match VarintIn(mem, p, e, 10)
      case None => Entry.Broken
      case Some((tag, q)) =>
        if tag == KeyTag(ki) then
          match ValueIn(mem, ki, q, e, lenient)
          case Broken => Entry.Broken
          case Refused => Entry.Refused
          case Got(k1, z) => EntryIn(mem, z, e, ki, vi, lenient, skip, k1, v)
        else if tag == ValueTag(vi) then
          match ValueIn(mem, vi, q, e, lenient)
          case Broken => Entry.Broken
          case Refused => Entry.Refused
          case Got(v1, z) => EntryIn(mem, z, e, ki, vi, lenient, skip, k, v1)
        else
          match skip(tag, q, e)
          case None => Entry.Broken
          case Some(z) => if z < q then Entry.Broken else EntryIn(mem, z, e, ki, vi, lenient, skip, k, v)
  }

  /** The rest of an entry after a key. */
  lemma AfterKey(mem: seq<byte>, p: nat, e: nat, ki: Kind, vi: Kind, lenient: bool, skip: Skipper, k: nat, v: nat)
    requires e + PADDING <= |mem| && KindOk(ki) && KindOk(vi) && p < e
    requires VarintIn(mem, p, e, 10) == Some((KeyTag(ki), p + 1))
    ensures EntryIn(mem, p, e, ki, vi, lenient, skip, k, v) ==
            match ValueIn(mem, ki, p + 1, e, lenient)
            case Broken => Entry.Broken
            case Refused => Entry.Refused
            case Got(k1, z) => EntryIn(mem, z, e, ki, vi, lenient, skip, k1, v)
  {
    hide VarintIn, ValueIn, KeyTag, ValueTag;
  }

  /** The rest of an entry after a value. */
  lemma AfterValue(mem: seq<byte>, p: nat, e: nat, ki: Kind, vi: Kind, lenient: bool, skip: Skipper, k: nat, v: nat)
    requires e + PADDING <= |mem| && KindOk(ki) && KindOk(vi) && p < e
    requires VarintIn(mem, p, e, 10) == Some((ValueTag(vi), p + 1))
    ensures EntryIn(mem, p, e, ki, vi, lenient, skip, k, v) ==
            match ValueIn(mem, vi, p + 1, e, lenient)
            case Broken => Entry.Broken
            case Refused => Entry.Refused
            case Got(v1, z) => EntryIn(mem, z, e, ki, vi, lenient, skip, k, v1)
  {
    hide VarintIn, ValueIn, KeyTag, ValueTag;
    assert KeyTag(ki) < 16 <= ValueTag(vi);
  }

  lemma AtEnd(mem: seq<byte>, e: nat, ki: Kind, vi: Kind, lenient: bool, skip: Skipper, k: nat, v: nat)
    requires e + PADDING <= |mem| && KindOk(ki) && KindOk(vi)
    ensures EntryIn(mem, e, e, ki, vi, lenient, skip, k, v) == Entry.Entry(k, v)
  {
  }

  /** A byte that is the tag of field 1 or 2 is a whole tag. */
  lemma TagByte(mem: seq<byte>, p: nat, e: nat, tag: nat)
    requires e + PADDING <= |mem| && p < e && tag < 128 && mem[p] as nat == tag
    ensures VarintIn(mem, p, e, 10) == Some((tag, p + 1))
  {
    hide Low7, VarintIn;
    ByteValue(mem[p]);
    OneByte(mem, p, e);
  }
}
