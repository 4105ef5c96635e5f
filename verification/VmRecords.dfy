/** Reading tags, choosing field parsers and skipping unknown records (internal/tdp/vm/run.go). */
module VmRecords {
  import opened Base128
  import opened Bits
  import opened Words
  import opened Records
  import opened VmSpec
  import opened Wire
  import opened Wrappers
  import Tag

  // ----- The parser's primitives meet the reference -----

  /** On a varint that ends in time, parseVarint returns its value and end. */
  lemma VarintMeets(mem: seq<byte>, p: nat, hi: nat, limit: nat)
    requires hi + PADDING <= |mem| && limit <= 10 && VarintIn(mem, p, hi, limit).Some?
    ensures p < hi
    ensures VarintAt(mem, p, hi) == Ok(VarintIn(mem, p, hi, limit).value.0, VarintIn(mem, p, hi, limit).value.1)
  {
    hide IsVarint, VarintAt, Value;
    var t := VarintIn(mem, p, hi, limit).value;
    ParseExact(mem, p, hi, t.1 - p);
  }

  lemma NineGroups(mem: seq<byte>, p: nat, n: nat)
    requires 1 <= n <= 9 && p + n <= |mem|
    ensures Value(mem[p..p + n]) < Pow2(63) == TWO64 / 2
  {
    hide Value;
    ValueStep(mem, p, n - 1);
    Pow2At56();
    Pow2Times128(56);
    Pow2Monotone(7 * n, 63);
  }

  /** A tenth byte of at most 1 keeps the value within 64 bits. */
  lemma TenGroups(mem: seq<byte>, p: nat)
    requires p + 10 <= |mem| && mem[p + 9] <= 1
    ensures Value(mem[p..p + 10]) < TWO64
  {
    hide Value, Pow2, Low7;
    NineGroups(mem, p, 9);
    ValueStep(mem, p, 9);
    ByteValue(mem[p + 9]);
    MulLess(Low7(mem[p + 9]), 1, Pow2(63));
  }

  /** What parseVarint returns before the end is a varint; otherwise its tenth byte lay right after the end. */
  lemma VarintMet(mem: seq<byte>, p: nat, hi: nat)
    requires p < hi && hi + PADDING <= |mem| && VarintAt(mem, p, hi).Ok?
    ensures var r := VarintAt(mem, p, hi);
            && r.value < TWO64
            && if r.ptr <= hi then VarintIn(mem, p, hi, 10) == Some((r.value, r.ptr))
               else r.ptr == hi + 1 && VarintIn(mem, p, hi, 10) == None
  {
    hide Value, More, VarintLength;
    var n := VarintLength(mem, p, 10);
    if n == 10 {
      TenGroups(mem, p);
    } else {
      NineGroups(mem, p, n);
    }
  }

  /**
   LengthPrefix: the length must fit in what is left, compared as unsigned words. It succeeds where the record is a
   length and that many bytes, and besides where the tenth byte of the length lies right after the end, when the bytes
   left, one less than none, count as very many. An error of the length itself is passed on.
   */
  method LengthPrefix(mem: seq<byte>, ptr: nat, end: nat) returns (r: Parsed<nat>)
    requires ptr <= end < TWO64 && end + PADDING <= |mem|
    ensures r.Ok? && r.ptr <= end <==> BytesIn(mem, ptr, end).Some?
    ensures r.Ok? && r.ptr <= end ==> BytesIn(mem, ptr, end) == Some((r.ptr, r.ptr + r.value))
    ensures r.Ok? && r.ptr > end <==> ptr < end && VarintAt(mem, ptr, end).Ok? && VarintAt(mem, ptr, end).ptr == end + 1
    ensures r.Err? ==>
            r.code == if ptr < end && VarintAt(mem, ptr, end).Err? then VarintAt(mem, ptr, end).code else Truncated
  {
    hide VarintAt, VarintIn;
    if ptr == end {
      return Err(Truncated);
    }
    r := ParseVarint(mem, ptr, end);
    if VarintIn(mem, ptr, end, 10).Some? {
      VarintMeets(mem, ptr, end, 10);
    }
    if r.Ok? {
      VarintMet(mem, ptr, end);
      if r.value > (end - r.ptr) % TWO64 {
        return Err(Truncated);
      }
    }
  }

  // ----- Choosing a field parser -----

  /**
   What comes of a tag: an error, the parser that handles it, or a number that no parser has; and where the tag ends.
   */
  datatype Lookup = Fail(code: ErrorCode) | Found(field: nat, ptr: nat) | Missed(number: nat, ptr: nat)

  /**
   From the tag at ptr to the parser that handles it: the table for one-byte tags, then up to maxMisses parsers along
   the NextErr chain from the predicted one, then the table for all tags. Whatever parser is predicted and whatever the
   input holds, the outcome is the one parser with the tag, if there is one; a tag that cannot be read, or that no
   parser has and that needs more than 32 bits, is an error.
   */
  method Dispatch(types: nat, t: TypeParser, mem: seq<byte>, ptr: nat, end: nat, predicted: nat, maxMisses: nat)
    returns (r: Lookup)
    requires TypeOk(types, t) && predicted < |t.fields| && maxMisses >= 1
    requires ptr < end && end + PADDING <= |mem|
    ensures r == match Tag.TagAt(mem, ptr, end)
                 case Err(code) => Fail(code)
                 case Ok(v, p) =>
                   if v in t.tags then Found(t.tags[v], p)
                   else if v >= 0x1_0000_0000 then Fail(Overflow)
                   else Missed(v, p)
  {
    hide Tag.ReadTag, Tag.TagAt, Tag.Spread, More, TypeOk, Tag.Overflows;
    Tag.ReadTagMeans(mem, ptr, end);
    var read := Tag.ReadTag(mem, ptr, end);
    if read.Err? {
      return Fail(read.code);
    }
    ghost var number := Tag.TagAt(mem, ptr, end).value;
    var tag, p := read.value, read.ptr;
    if !More(mem[ptr]) {
      OneByteTag(mem, ptr, end);
      TableOk(types, t, tag);
      var offset := t.lut[tag];
      if offset != NO_PARSER {
        return Found(offset, p);
      }
    }

    var tries: nat, f: nat := maxMisses, predicted;
    while true
      invariant tries >= 1 && f < |t.fields|
      decreases tries
    {
      FieldAt(types, t, f);
      if t.fields[f].tag == tag {
        TagsAgree(types, t, f, number);
        return Found(f, p);
      }
      f := t.fields[f].nextErr;
      tries := tries - 1;
      if tries == 0 {
        break;
      }
    }

    KnownBelow(types, t, number);
    Tag.OverflowsExact(number);
    if Tag.Overflows(tag) {
      return Fail(Overflow);
    }
    TagDecodes(number);
    var tag2 := Tag.Decode(tag);
    r := if tag2 in t.tags then Found(t.tags[tag2], p) else Missed(tag2, p);
  }

  lemma FieldAt(types: nat, t: TypeParser, f: nat)
    requires TypeOk(types, t) && f < |t.fields|
    ensures FieldOk(types, t.fields[f], |t.fields|)
  {
  }

  /** The table for one-byte tags names the parsers that the table for all tags names. */
  lemma TableOk(types: nat, t: TypeParser, tag: nat)
    requires TypeOk(types, t) && tag < 128
    ensures |t.lut| == 128 && (t.lut[tag] != NO_PARSER ==> tag in t.tags && t.tags[tag] == t.lut[tag])
  {
  }

  /** No parser has a tag of more than 32 bits. */
  lemma KnownBelow(types: nat, t: TypeParser, number: nat)
    requires TypeOk(types, t)
    ensures number in t.tags ==> number < 0x1_0000_0000 && t.tags[number] < |t.fields|
  {
    if number in t.tags {
      FieldAt(types, t, t.tags[number]);
    }
  }

  /** The loop reads a record's tag, and its end. */
  lemma TagMeets(mem: seq<byte>, ptr: nat, end: nat)
    requires end + PADDING <= |mem| && TagIn(mem, ptr, end).Some?
    ensures ptr < end && Tag.TagAt(mem, ptr, end) == Ok(TagIn(mem, ptr, end).value.0, TagIn(mem, ptr, end).value.1)
  {
    hide Tag.TagAt, IsVarint, Value;
    var t := TagIn(mem, ptr, end).value;
    Tag.TagAtExact(mem, ptr, end, t.1 - ptr);
  }

  lemma TagDecodes(number: nat)
    requires number < 0x1_0000_0000
    ensures Tag.Gather(Tag.Spread(number), 5) == number
  {
    hide Tag.Gather, Tag.Spread, Pow2;
    Tag.Pow2At35();
    Tag.GatherSpread(number, 5);
  }

  /** A one-byte tag is its own spread form and an index of the table for one-byte tags. */
  lemma OneByteTag(mem: seq<byte>, ptr: nat, end: nat)
    requires ptr < end && end + PADDING <= |mem| && !More(mem[ptr])
    ensures Tag.TagAt(mem, ptr, end).Ok?
    ensures Tag.Spread(Tag.TagAt(mem, ptr, end).value) == Tag.TagAt(mem, ptr, end).value < 128
  {
    hide Low7;
    var s := mem[ptr..ptr + 1];
    assert s[1..] == [];
    assert Value(s) == Low7(s[0]);
    Tag.SpreadUnfold(Value(s));
    Tag.SpreadUnfold(0);
    assert Value(s) / 128 == 0;
  }

  /** A parser whose tag equals a tag that was read is the parser the table names for it. */
  lemma TagsAgree(types: nat, t: TypeParser, f: nat, number: nat)
    requires TypeOk(types, t) && f < |t.fields| && t.fields[f].tag == Tag.Spread(number)
    ensures number in t.tags && t.tags[number] == f
  {
    hide Tag.Spread;
    FieldAt(types, t, f);
    NeverUnmatched(number);
    Tag.SpreadInjective(t.fields[f].number, number);
  }

  /** No tag is that of the placeholder. */
  lemma NeverUnmatched(number: nat)
    ensures Tag.Spread(number) != UNMATCHED
  {
    hide Tag.Spread;
    Tag.SpreadUnfold(number);
    assert Tag.Spread(number) % 256 < 128 && UNMATCHED % 256 == 255;
  }

  // ----- Skipping a record -----

  /** skipRecord after the tag: advances past the body, to the end of whatever body is written there. */
  method SkipRecord(mem: seq<byte>, ptr: nat, end: nat, tag: nat, depth: int) returns (p: nat)
    requires ptr <= end && end + PADDING <= |mem| && end < TWO64
    requires 8 <= tag < 0x1_0000_0000 && BodyEnd(mem, ptr, end, tag, depth).Some?
    ensures p == BodyEnd(mem, ptr, end, tag, depth).value
    ensures forall b: Body :: BodyAt(mem, ptr, end, tag, b, depth) ==> p == ptr + |WriteBody(b)|
    decreases end - ptr, 1
  {
    hide VarintIn, VarintAt, BytesIn, BodyAt, WriteBody;
    forall b: Body | BodyAt(mem, ptr, end, tag, b, depth)
      ensures BodyEnd(mem, ptr, end, tag, depth) == Some(ptr + |WriteBody(b)|)
    {
      BodyRead(mem, ptr, end, tag, b, depth);
    }
    var wire := tag % 8;
    if wire == 0 {
      VarintMeets(mem, ptr, end, 10);
      var r := ParseVarint(mem, ptr, end);
      p := r.ptr;
    } else if wire == 2 {
      var r := LengthPrefix(mem, ptr, end);
      p := r.ptr + r.value;
    } else if wire == 5 {
      p := ptr + 4;
    } else if wire == 1 {
      p := ptr + 8;
    } else {
      p := SkipGroup(mem, ptr, end, tag / 8, depth);
    }
  }

  /** The loop of skipRecord over the records of a group. */
  method SkipGroup(mem: seq<byte>, ptr: nat, end: nat, number: nat, depth: int) returns (p: nat)
    requires ptr <= end && end + PADDING <= |mem| && end < TWO64
    requires GroupEnd(mem, ptr, end, number, depth).Some?
    ensures p == GroupEnd(mem, ptr, end, number, depth).value
    ensures forall nodes, code :: GroupAt(mem, ptr, end, number, nodes, code, depth) ==>
            p == ptr + |Write(nodes) + code|
    decreases end - ptr, 0
  {
    hide VarintIn, VarintAt, BodyEnd, GroupAt, Write;
    forall nodes, code | GroupAt(mem, ptr, end, number, nodes, code, depth)
      ensures GroupEnd(mem, ptr, end, number, depth) == Some(ptr + |Write(nodes) + code|)
    {
      GroupWritten(mem, ptr, end, number, nodes, code, depth);
    }
    var stop := number * 8 + 4;
    p := ptr;
    while true
      invariant ptr <= p <= end && GroupEnd(mem, p, end, number, depth) == GroupEnd(mem, ptr, end, number, depth)
      decreases end - p
    {
      VarintMeets(mem, p, end, 10);
      var raw := ParseVarint(mem, p, end);
      if raw.value == stop {
        return raw.ptr;
      }
      p := SkipRecord(mem, raw.ptr, end, raw.value, depth - 1);
    }
  }

  lemma GroupWritten(mem: seq<byte>, p: nat, hi: nat, number: nat, nodes: seq<Node>, code: seq<byte>, depth: int)
    requires GroupAt(mem, p, hi, number, nodes, code, depth) && hi + PADDING <= |mem|
    ensures GroupEnd(mem, p, hi, number, depth) == Some(p + |Write(nodes) + code|)
  {
    hide GroupEnd, NodesOk, CodeOk, At, Write;
    GroupRead(mem, p, hi, number, nodes, code, depth);
  }

  // ----- Finding the start of an unknown record -----

  /** protowire.SizeVarint. */
  function SizeVarint(v: nat): nat {
    if v < 128 then 1 else 1 + SizeVarint(v / 128)
  }

  lemma {:induction false} ZeroGroups(s: seq<byte>)
    requires forall i :: 0 <= i < |s| ==> Low7(s[i]) == 0
    ensures Value(s) == 0
  {
    hide Low7;
    if s != [] {
      assert Low7(s[0]) == 0;
      ZeroGroups(s[1..]);
    }
  }

  /** The highest nonzero group of a number decides its size. */
  lemma {:induction false} SizeOfValue(s: seq<byte>, h: nat)
    requires h < |s| && Low7(s[h]) != 0
    requires forall i :: h < i < |s| ==> Low7(s[i]) == 0
    ensures Value(s) > 0 && SizeVarint(Value(s)) == h + 1
    decreases h
  {
    hide Low7;
    assert Value(s) == Low7(s[0]) + 128 * Value(s[1..]);
    if h == 0 {
      ZeroGroups(s[1..]);
    } else {
      SizeOfValue(s[1..], h - 1);
      assert Value(s) / 128 == Value(s[1..]);
    }
  }

  /** The backward scan of handleUnknown: from the end of a nonzero tag, minimal or overlong, to its first byte. */
  method TagStart(mem: seq<byte>, ghost lo: nat, ptr: nat, tag: nat) returns (start: nat)
    requires lo < ptr <= |mem| && IsVarint(mem[lo..ptr]) && tag == Value(mem[lo..ptr]) && tag > 0
    ensures start == lo
  {
    hide Low7, IsVarint, Value;
    ghost var s := mem[lo..ptr];
    ghost var g := NonzeroGroup(s);
    start := ptr - 1;
    while Low7(mem[start]) == 0
      invariant lo + g <= start < ptr
      invariant forall i :: start - lo < i < |s| ==> Low7(s[i]) == 0
      decreases start
    {
      assert mem[start] == s[start - lo];
      start := start - 1;
    }
    assert mem[start] == s[start - lo];
    SizeOfValue(s, start - lo);
    start := start + 1 - SizeVarint(tag);
  }

  lemma NonzeroGroup(s: seq<byte>) returns (g: nat)
    requires Value(s) > 0
    ensures g < |s| && Low7(s[g]) != 0
  {
    hide Low7;
    if forall i :: 0 <= i < |s| ==> Low7(s[i]) == 0 {
      ZeroGroups(s);
    }
    g :| 0 <= g < |s| && Low7(s[g]) != 0;
  }
}
