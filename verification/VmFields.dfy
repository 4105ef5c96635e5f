/** The field parsers other than for messages (internal/tdp/thunks/singular.go, oneof.go and repeated.go). */
module VmFields {
  import opened Base128
  import opened MapEntry
  import opened Records
  import opened RecordValues
  import opened Values
  import opened VmRecords
  import opened VmSpec
  import opened Wire
  import opened Words
  import Utf8

  /** The thunks that read one value: what they store, or that they fail on text that is not UTF-8. */
  method ParseValue(mem: seq<byte>, k: Kind, ptr: nat, end: nat, lenient: bool) returns (r: Read<nat>)
    requires ptr <= end < TWO64 && end + PADDING <= |mem| && KindOk(k)
    requires !ValueIn(mem, k, ptr, end, lenient).Broken?
    ensures r == ValueIn(mem, k, ptr, end, lenient)
    ensures end < 0x1_0000_0000 ==>
              forall b: Body :: ScalarAt(mem, k, ptr, end, b, lenient) ==>
                r.Got? && r.end == ptr + |WriteBody(b)| && Stands(mem, k, r.value, b)
    ensures end < 0x1_0000_0000 && r.Got? && (k.Bytes? || k.Text?) ==>
              match BytesIn(mem, ptr, end)
              case None => false
              case Some((s, z)) =>
                && RangeBytes(mem, r.value) == mem[s..z]
                && (s < z || k.Bytes? ==> r.value % 0x1_0000_0000 == s && r.value / 0x1_0000_0000 == z - s)
  {
    hide VarintIn, VarintAt, BytesIn, Utf8.WellFormed, VarintWord, RangeBytes, Stands, ScalarAt, WriteBody;
    if end < 0x1_0000_0000 {
      forall b: Body | ScalarAt(mem, k, ptr, end, b, lenient)
        ensures var v := ValueIn(mem, k, ptr, end, lenient);
                v.Got? && v.end == ptr + |WriteBody(b)| && Stands(mem, k, v.value, b)
      {
        ValueRead(mem, k, ptr, end, b, lenient);
      }
      RangeStored(mem, k, ptr, end, lenient);
    }
    if k.Fixed? {
      r := Got(LittleEndian(mem, ptr, k.width), ptr + k.width);
    } else if k.Bytes? || k.Text? {
      var n := LengthPrefix(mem, ptr, end);
      if k.Bytes? || lenient {
        r := Got(RangeWord(n.ptr, n.ptr + n.value), n.ptr + n.value);
      } else {
        var v := Utf8.VerifyUTF8(mem, n.ptr, n.value);
        r := if v.Ok? then Got(RangeWord(v.value.start, v.value.start + v.value.len), v.ptr) else Read.Refused;
      }
    } else {
      VarintMeets(mem, ptr, end, 10);
      var v := ParseVarint(mem, ptr, end);
      r := Got(VarintWord(k, v.value), v.ptr);
    }
  }

  // ----- Map entries -----

  /**
   parseMapKxV up to the insertion: the fast path for a key followed by a value, then the loop over whatever records
   are left. Both read the same entry.
   */
  method ParseEntry(mem: seq<byte>, ptr: nat, end: nat, ki: Kind, vi: Kind, lenient: bool, skip: Skipper)
    returns (r: Entry)
    requires ptr <= end < TWO64 && end + PADDING <= |mem| && KindOk(ki) && KindOk(vi)
    requires !EntryIn(mem, ptr, end, ki, vi, lenient, skip, 0, 0).Broken?
    ensures r == EntryIn(mem, ptr, end, ki, vi, lenient, skip, 0, 0)
    ensures end < 0x1_0000_0000 ==>
              forall nodes :: EntryAt(mem, ptr, end, ki, vi, lenient, skip, nodes) ==>
                r.Entry? && LastStands(mem, ki, 1, r.key, 0, nodes) && LastStands(mem, vi, 2, r.value, 0, nodes)
    ensures end < 0x1_0000_0000 ==>
              forall kb, vb :: PairAt(mem, ptr, end, ki, vi, lenient, kb, vb) ==>
                r.Entry? && Stands(mem, ki, r.key, kb) && Stands(mem, vi, r.value, vb)
  {
    hide VarintIn, VarintAt, ValueIn, KeyTag, ValueTag, EntryIn, EntryAt, LastStands, PairAt, Stands;
    if end < 0x1_0000_0000 {
      EntriesWritten(mem, ptr, end, ki, vi, lenient, skip);
    }
    var k, v, p := 0, 0, ptr;
    AtEnd(mem, end, ki, vi, lenient, skip, k, v);
    if p == end {
      return Entry.Entry(k, v);
    }
    if mem[p] as nat == KeyTag(ki) {
      TagByte(mem, p, end, KeyTag(ki));
      AfterKey(mem, p, end, ki, vi, lenient, skip, k, v);
      var w := ParseValue(mem, ki, p + 1, end, lenient);
      if w.Refused? {
        return Entry.Refused;
      }
      k, p := w.value, w.end;
      AtEnd(mem, end, ki, vi, lenient, skip, k, v);
      if p == end {
        return Entry.Entry(k, v);
      }
      if mem[p] as nat == ValueTag(vi) {
        TagByte(mem, p, end, ValueTag(vi));
        AfterValue(mem, p, end, ki, vi, lenient, skip, k, v);
        w := ParseValue(mem, vi, p + 1, end, lenient);
        if w.Refused? {
          return Entry.Refused;
        }
        v, p := w.value, w.end;
        AtEnd(mem, end, ki, vi, lenient, skip, k, v);
        if p == end {
          return Entry.Entry(k, v);
        }
      }
    }
    r := ParseSlowly(mem, p, end, ki, vi, lenient, skip, k, v);
  }

  /** From p to e, mem holds a key and a value, in either order. */
  predicate PairAt(mem: seq<byte>, p: nat, e: nat, ki: Kind, vi: Kind, lenient: bool, kb: Body, vb: Body) {
    var k, v := Encode(8 + KindWire(ki)) + WriteBody(kb), Encode(16 + KindWire(vi)) + WriteBody(vb);
    && ScalarOk(ki, kb, lenient) && ScalarOk(vi, vb, lenient) && p + |k + v| == e
       && (At(mem, p, k + v) || At(mem, p, v + k))
  }

  lemma EntriesWritten(mem: seq<byte>, p: nat, e: nat, ki: Kind, vi: Kind, lenient: bool, skip: Skipper)
    requires KindOk(ki) && KindOk(vi) && e < 0x1_0000_0000 && e + PADDING <= |mem|
    ensures var r := EntryIn(mem, p, e, ki, vi, lenient, skip, 0, 0);
            && (forall nodes :: EntryAt(mem, p, e, ki, vi, lenient, skip, nodes) ==>
                  r.Entry? && LastStands(mem, ki, 1, r.key, 0, nodes) && LastStands(mem, vi, 2, r.value, 0, nodes))
            && (forall kb, vb :: PairAt(mem, p, e, ki, vi, lenient, kb, vb) ==>
                  r.Entry? && Stands(mem, ki, r.key, kb) && Stands(mem, vi, r.value, vb))
  {
    hide EntryIn, EntryAt, LastStands, PairAt, Stands;
    var r := EntryIn(mem, p, e, ki, vi, lenient, skip, 0, 0);
    forall nodes | EntryAt(mem, p, e, ki, vi, lenient, skip, nodes)
      ensures r.Entry? && LastStands(mem, ki, 1, r.key, 0, nodes) && LastStands(mem, vi, 2, r.value, 0, nodes)
    {
      EntryRead(mem, p, e, ki, vi, lenient, skip, nodes, 0, 0);
    }
    forall kb, vb | PairAt(mem, p, e, ki, vi, lenient, kb, vb)
      ensures r.Entry? && Stands(mem, ki, r.key, kb) && Stands(mem, vi, r.value, vb)
    {
      PairRead(mem, p, e, ki, vi, lenient, skip, kb, vb);
    }
  }

  lemma PairRead(mem: seq<byte>, p: nat, e: nat, ki: Kind, vi: Kind, lenient: bool, skip: Skipper, kb: Body, vb: Body)
    requires KindOk(ki) && KindOk(vi) && e < 0x1_0000_0000 && e + PADDING <= |mem|
    requires PairAt(mem, p, e, ki, vi, lenient, kb, vb)
    ensures var r := EntryIn(mem, p, e, ki, vi, lenient, skip, 0, 0);
            r.Entry? && Stands(mem, ki, r.key, kb) && Stands(mem, vi, r.value, vb)
  {
    hide EntryIn, ScalarOk, Stands, Encode, WriteBody, Write, EntryOk, LastTagged;
    KeyAndValue(ki, vi, lenient, skip, p, e, kb, vb);
    var k, v := Node(Encode(8 + KindWire(ki)), kb), Node(Encode(16 + KindWire(vi)), vb);
    var nodes := if At(mem, p, Write([k, v])) then [k, v] else [v, k];
    EntryRead(mem, p, e, ki, vi, lenient, skip, nodes, 0, 0);
  }

  /** The loop that parses a tag for every record. */
  method ParseSlowly(mem: seq<byte>, ptr: nat, end: nat, ki: Kind, vi: Kind, lenient: bool, skip: Skipper, k0: nat,
                     v0: nat)
    returns (r: Entry)
    requires ptr <= end < TWO64 && end + PADDING <= |mem| && KindOk(ki) && KindOk(vi)
    requires !EntryIn(mem, ptr, end, ki, vi, lenient, skip, k0, v0).Broken?
    ensures r == EntryIn(mem, ptr, end, ki, vi, lenient, skip, k0, v0)
  {
    hide VarintIn, VarintAt, ValueIn, KeyTag, ValueTag;
    var k, v, p := k0, v0, ptr;
    while p < end
      invariant EntryIn(mem, p, end, ki, vi, lenient, skip, k, v) ==
                EntryIn(mem, ptr, end, ki, vi, lenient, skip, k0, v0)
      decreases end - p
    {
      VarintMeets(mem, p, end, 10);
      var tag := ParseVarint(mem, p, end);
      if tag.value == KeyTag(ki) {
        var w := ParseValue(mem, ki, tag.ptr, end, lenient);
        if w.Refused? {
          return Entry.Refused;
        }
        k, p := w.value, w.end;
      } else if tag.value == ValueTag(vi) {
        var w := ParseValue(mem, vi, tag.ptr, end, lenient);
        if w.Refused? {
          return Entry.Refused;
        }
        v, p := w.value, w.end;
      } else {
        p := skip(tag.value, tag.ptr, end).value;
      }
    }
    r := Entry.Entry(k, v);
  }

  // ----- Any field -----

  /** The loop over a packed record of varints, one after another to its end. */
  method ParsePacked(mem: seq<byte>, s: nat, z: nat, m: nat) returns (items: seq<nat>)
    requires s <= z < TWO64 && z + PADDING <= |mem| && m > 0 && Varints(mem, s, z).Some?
    ensures items == Trunc(Varints(mem, s, z).value, m)
  {
    hide VarintIn, VarintAt;
    items := [];
    var p := s;
    while p != z
      invariant s <= p <= z && Varints(mem, p, z).Some?
      invariant items + Trunc(Varints(mem, p, z).value, m) == Trunc(Varints(mem, s, z).value, m)
      decreases z - p
    {
      VarintMeets(mem, p, z, 10);
      var v := ParseVarint(mem, p, z);
      assert Varints(mem, p, z).value[1..] == Varints(mem, v.ptr, z).value;
      items := items + [v.value % m];
      p := v.ptr;
    }
  }

  /** The contents of a packed record, varints or numbers of one width, or of the entry of a map. */
  method ParseContents(env: Env, t: Thunk, s: nat, z: nat) returns (r: Read<Content>)
    requires s <= z < TWO64 && z + PADDING <= |env.mem|
    requires (t.Packed? && KindOk(t.item) && (t.item.Varint? || t.item.Fixed?))
             || (t.MapOf? && KindOk(t.key) && KindOk(t.value))
    requires !ContentsIn(env, t, s, z).Broken?
    ensures r == ContentsIn(env, t, s, z)
  {
    hide Varints, Trunc, Borrowed, EntryIn, Limit;
    if t.MapOf? {
      var entry := ParseEntry(env.mem, s, z, t.key, t.value, env.lenient, env.skip);
      r := if entry.Refused? then Read.Refused else Got(Pair(KeyOf(env.mem, t.key, entry.key), entry.value), z);
    } else if t.item.Varint? {
      var items := ParsePacked(env.mem, s, z, Limit(t.item.width));
      r := Got(Items(items), z);
    } else if (z - s) % t.item.width != 0 {
      r := Read.Refused;
    } else {
      r := Got(Items(Borrowed(env.mem, s, t.item.width, (z - s) / t.item.width)), z);
    }
  }

  /** Any field parser but those for messages. How lists and maps keep what is read is in Repeated and MapField. */
  method ParseKnown(env: Env, t: Thunk, ghost wireType: nat, ptr: nat, end: nat) returns (r: Read<Content>)
    requires ptr <= end < TWO64 && end + PADDING <= |env.mem| && ThunkOk(|env.types|, t, wireType) && !IsMessage(t)
    requires !KnownIn(env, t, wireType, ptr, end).Broken?
    ensures r == KnownIn(env, t, wireType, ptr, end)
  {
    hide ValueIn, ContentsIn, BytesIn;
    if t.Packed? || t.MapOf? {
      var n := LengthPrefix(env.mem, ptr, end);
      r := ParseContents(env, t, n.ptr, n.ptr + n.value);
    } else {
      var v := ParseValue(env.mem, ValueKind(t), ptr, end, env.lenient);
      r := if v.Refused? then Read.Refused else Got(if t.Append? then Items([v.value]) else Word(v.value), v.end);
    }
  }
}
