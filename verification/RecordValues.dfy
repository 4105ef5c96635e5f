/**
 What the bodies of records stand for, and that the values and map entries that are read are those that were written.
 */
module RecordValues {
  import opened Base128
  import opened MapEntry
  import opened Records
  import opened Values
  import opened Wire
  import opened Words
  import opened Wrappers
  import B = Bits
  import Utf8

  // ----- Values -----

  /** The wire types of the encoding rules: 0 for varints, 1 and 5 for eight and four bytes, 2 for lengths. */
  function KindWire(k: Kind): nat {
    if k == Fixed(8) then 1 else if k == Fixed(4) then 5 else if k.Bytes? || k.Text? then 2 else 0
  }

  /** A body that holds a value of that kind. */
  predicate ScalarOk(k: Kind, b: Body, lenient: bool) {
    match k
    case Fixed(w) => b.Plain? && |b.bytes| == w
    case Bytes => b.Sized? && CodeOk(b.size, 10) && Value(b.size) == |b.bytes|
    case Text =>
      b.Sized? && CodeOk(b.size, 10) && Value(b.size) == |b.bytes|
        && (lenient || Utf8.WellFormed(b.bytes, 0, |b.bytes|))
    case _ => b.Coded? && CodeOk(b.code, 10)
  }

  /** The number that bytes spell, the least significant first. */
  function Spelled(bytes: seq<byte>): nat {
    if bytes == [] then 0 else bytes[0] as nat + 256 * Spelled(bytes[1..])
  }

  /** A signed number of so many bytes in two's complement. */
  function Complement(i: int, width: nat): int {
    if i >= 0 then i else B.Pow2(8 * width) + i
  }

  /** The number that is stored for a varint: its low bytes, the signed number it numbers in zigzag order, or a bool. */
  function Converted(k: Kind, v: nat): int {
    match k
    case Varint(w) => v % B.Pow2(8 * w)
    case ZigZag(w) =>
      var n := v % B.Pow2(8 * w);
      Complement(if n % 2 == 0 then n / 2 else -(n / 2) - 1, w)
    case _ => if v == 0 then 0 else 1
  }

  /** The number that is stored for a body. */
  function Num(k: Kind, b: Body): int {
    match b
    case Coded(code) => Converted(k, Value(code))
    case Plain(bytes) => Spelled(bytes)
    case _ => 0
  }

  /** A stored word stands for the value of a body: a number is the word; bytes are where the word says, in mem. */
  predicate Stands(mem: seq<byte>, k: Kind, word: nat, b: Body) {
    if k.Bytes? || k.Text? then
      b.Sized? && word / 0x1_0000_0000 == |b.bytes| && At(mem, word % 0x1_0000_0000, b.bytes)
    else word == Num(k, b)
  }

  /** Between p and hi, mem starts with a body of that kind. */
  predicate ScalarAt(mem: seq<byte>, k: Kind, p: nat, hi: nat, b: Body, lenient: bool) {
    ScalarOk(k, b, lenient) && At(mem, p, WriteBody(b)) && p + |WriteBody(b)| <= hi
  }

  lemma {:induction false} LimitIsPow2(w: nat)
    ensures Limit(w) == B.Pow2(8 * w) && (w > 0 ==> Limit(w) > 1)
  {
    if w == 0 {
      PowerOfNone();
    } else {
      hide B.Pow2;
      LimitIsPow2(w - 1);
      Double8(8 * (w - 1));
    }
  }

  lemma PowerOfNone()
    ensures B.Pow2(0) == 1
  {
  }

  lemma Double8(k: nat)
    ensures B.Pow2(k + 8) == 256 * B.Pow2(k)
  {
    Pow2Times128(k);
    assert B.Pow2(k + 8) == 2 * B.Pow2(k + 7);
  }

  /** Numbers are converted as they should. */
  lemma ConvertedExact(k: Kind, v: nat)
    requires KindOk(k) && (k.Varint? || k.ZigZag? || k.Bool?)
    ensures VarintWord(k, v) == Converted(k, v)
  {
    if k.Varint? || k.ZigZag? {
      LimitIsPow2(k.width);
    }
  }

  lemma {:induction false} SpelledExact(mem: seq<byte>, p: nat, bytes: seq<byte>)
    requires At(mem, p, bytes)
    ensures LittleEndian(mem, p, |bytes|) == Spelled(bytes)
    decreases |bytes|
  {
    if bytes != [] {
      assert bytes == [bytes[0]] + bytes[1..];
      AtSplit(mem, p, [bytes[0]], bytes[1..]);
      assert mem[p] == mem[p..p + 1][0];
      SpelledExact(mem, p + 1, bytes[1..]);
    }
  }

  /** The word of a range tells where the range starts and how long it is. */
  lemma RangeParts(s: nat, z: nat)
    requires s <= z && s < 0x1_0000_0000
    ensures RangeWord(s, z) % 0x1_0000_0000 == s && RangeWord(s, z) / 0x1_0000_0000 == z - s
  {
    B.ModUnique(RangeWord(s, z), z - s, s, 0x1_0000_0000);
  }

  /** Whether bytes are well-formed text does not depend on where they are. */
  lemma {:induction false} TextAnywhere(mem: seq<byte>, p: nat, bytes: seq<byte>, i: nat)
    requires At(mem, p, bytes) && i <= |bytes|
    ensures Utf8.WellFormed(mem, p + i, p + |bytes|) == Utf8.WellFormed(bytes, i, |bytes|)
    decreases |bytes| - i
  {
    if i < |bytes| {
      CharAnywhere(mem, p, bytes, i);
      var n := Utf8.CharLength(bytes, i, |bytes|);
      if n > 0 {
        TextAnywhere(mem, p, bytes, i + n);
      }
    }
  }

  lemma CharAnywhere(mem: seq<byte>, p: nat, bytes: seq<byte>, i: nat)
    requires At(mem, p, bytes) && i < |bytes|
    ensures Utf8.CharLength(mem, p + i, p + |bytes|) == Utf8.CharLength(bytes, i, |bytes|)
  {
    hide Utf8.Two, Utf8.Three, Utf8.Four;
    var s := mem[p..p + |bytes|];
    assert forall k :: 0 <= k < |s| ==> s[k] == mem[p + k];
  }

  /** A value that was written is read. */
  lemma ValueRead(mem: seq<byte>, k: Kind, p: nat, hi: nat, b: Body, lenient: bool)
    requires ScalarAt(mem, k, p, hi, b, lenient) && KindOk(k) && hi < 0x1_0000_0000 && hi + PADDING <= |mem|
    ensures var r := ValueIn(mem, k, p, hi, lenient);
            r.Got? && r.end == p + |WriteBody(b)| && Stands(mem, k, r.value, b)
  {
    hide VarintIn, BytesIn, Utf8.WellFormed, LittleEndian, Spelled, Converted, VarintWord, RangeWord, At, CodeOk, Value;
    if k.Fixed? {
      SpelledExact(mem, p, b.bytes);
    } else if k.Bytes? || k.Text? {
      SizedRead(mem, p, hi, b.size, b.bytes);
      RangeParts(p + |b.size|, p + |b.size| + |b.bytes|);
      TextAnywhere(mem, p + |b.size|, b.bytes, 0);
      NothingAt(mem, 0, b.bytes);
    } else {
      CodeRead(mem, p, hi, b.code, 10);
      ConvertedExact(k, Value(b.code));
    }
  }

  /** The word that is stored for bytes or text says where they are. */
  lemma RangeStored(mem: seq<byte>, k: Kind, p: nat, hi: nat, lenient: bool)
    requires KindOk(k) && hi < 0x1_0000_0000 && hi + PADDING <= |mem|
    ensures ValueIn(mem, k, p, hi, lenient).Got? && (k.Bytes? || k.Text?) ==>
              var word := ValueIn(mem, k, p, hi, lenient).value;
              match BytesIn(mem, p, hi)
              case None => false
              case Some((s, z)) =>
                && RangeBytes(mem, word) == mem[s..z]
                && (s < z || k.Bytes? ==> word % 0x1_0000_0000 == s && word / 0x1_0000_0000 == z - s)
  {
    hide BytesIn, Utf8.WellFormed, RangeWord;
    if (k.Bytes? || k.Text?) && BytesIn(mem, p, hi).Some? {
      var (s, z) := BytesIn(mem, p, hi).value;
      RangeParts(s, z);
    }
  }

  lemma NothingAt(mem: seq<byte>, p: nat, bytes: seq<byte>)
    requires p <= |mem|
    ensures bytes == [] ==> At(mem, p, bytes)
  {
  }

  /** Every value that is read was written. */
  lemma ValueOf(mem: seq<byte>, k: Kind, p: nat, hi: nat, lenient: bool) returns (b: Body)
    requires KindOk(k) && hi + PADDING <= |mem| && ValueIn(mem, k, p, hi, lenient).Got?
    ensures ScalarOk(k, b, lenient) && WriteBody(b) == mem[p..ValueIn(mem, k, p, hi, lenient).end]
  {
    hide VarintIn, BytesIn, Utf8.WellFormed, LittleEndian, VarintWord, RangeWord, CodeOk;
    var z := ValueIn(mem, k, p, hi, lenient).end;
    if k.Fixed? {
      b := Plain(mem[p..z]);
    } else if k.Bytes? || k.Text? {
      SizedOf(mem, p, hi);
      var s := BytesIn(mem, p, hi).value.0;
      b := Sized(mem[p..s], mem[s..z]);
      TextAnywhere(mem, s, mem[s..z], 0);
    } else {
      CodeOf(mem, p, hi, 10);
      b := Coded(mem[p..z]);
    }
  }

  // ----- Packed records -----

  predicate AllCodes(parts: seq<seq<byte>>) {
    forall i :: 0 <= i < |parts| ==> CodeOk(parts[i], 10)
  }

  /** The values of the varints. */
  function Codes(parts: seq<seq<byte>>): seq<nat> {
    if parts == [] then [] else [Value(parts[0])] + Codes(parts[1..])
  }

  lemma {:induction false} CodesRead(mem: seq<byte>, p: nat, e: nat, parts: seq<seq<byte>>)
    requires AllCodes(parts) && At(mem, p, Joined(parts)) && p + |Joined(parts)| == e && e + PADDING <= |mem|
    ensures Varints(mem, p, e) == Some(Codes(parts))
    decreases |parts|
  {
    hide VarintIn, CodeOk, At, Value;
    if parts != [] {
      AtSplit(mem, p, parts[0], Joined(parts[1..]));
      CodeRead(mem, p, e, parts[0], 10);
      CodesRead(mem, p + |parts[0]|, e, parts[1..]);
    }
  }

  lemma {:induction false} CodesOf(mem: seq<byte>, p: nat, e: nat) returns (parts: seq<seq<byte>>)
    requires e + PADDING <= |mem| && Varints(mem, p, e).Some?
    ensures p <= e && AllCodes(parts) && Joined(parts) == mem[p..e]
    decreases e - p
  {
    hide VarintIn, CodeOk;
    parts := [];
    if p < e {
      CodeOf(mem, p, e, 10);
      var q := VarintIn(mem, p, e, 10).value.1;
      var rest := CodesOf(mem, q, e);
      parts := [mem[p..q]] + rest;
      assert parts[1..] == rest && mem[p..e] == mem[p..q] + mem[q..e];
    }
  }

  predicate AllWide(parts: seq<seq<byte>>, width: nat) {
    forall i :: 0 <= i < |parts| ==> |parts[i]| == width
  }

  /** The numbers that the parts spell. */
  function SpelledAll(parts: seq<seq<byte>>): seq<nat> {
    if parts == [] then [] else [Spelled(parts[0])] + SpelledAll(parts[1..])
  }

  lemma {:induction false} WideRead(mem: seq<byte>, p: nat, parts: seq<seq<byte>>, width: nat)
    requires width > 0 && AllWide(parts, width) && At(mem, p, Joined(parts))
    ensures |Joined(parts)| == |parts| * width && Borrowed(mem, p, width, |parts|) == SpelledAll(parts)
    decreases |parts|
  {
    hide Spelled, LittleEndian, At;
    if parts != [] {
      B.Distribute(|parts| - 1, 1, width);
      AtSplit(mem, p, parts[0], Joined(parts[1..]));
      AtWithin(mem, p, parts[0]);
      SpelledExact(mem, p, parts[0]);
      WideRead(mem, p + width, parts[1..], width);
    }
  }

  lemma AtWithin(mem: seq<byte>, p: nat, s: seq<byte>)
    requires At(mem, p, s)
    ensures p + |s| <= |mem|
  {
  }

  lemma {:induction false} WideOf(bytes: seq<byte>, width: nat, count: nat) returns (parts: seq<seq<byte>>)
    requires width > 0 && |bytes| == count * width
    ensures AllWide(parts, width) && Joined(parts) == bytes
    decreases count
  {
    parts := [];
    if count > 0 {
      B.Distribute(count - 1, 1, width);
      var rest := WideOf(bytes[width..], width, count - 1);
      parts := [bytes[..width]] + rest;
      assert parts[1..] == rest && bytes == bytes[..width] + bytes[width..];
    }
  }

  // ----- Map entries -----

  /** The tags of keys, which are field 1, and of values, which are field 2. */
  function EntryTag(number: nat, k: Kind): nat {
    number * 8 + KindWire(k)
  }

  /** A record at p of an entry that ends at e: a key, a value, or one that is passed over. */
  predicate EntryNodeOk(ki: Kind, vi: Kind, lenient: bool, skip: Skipper, p: nat, e: nat, n: Node) {
    && CodeOk(n.tag, 10)
    && (if Value(n.tag) == EntryTag(1, ki) then ScalarOk(ki, n.body, lenient)
        else if Value(n.tag) == EntryTag(2, vi) then ScalarOk(vi, n.body, lenient)
        else n.body.Other? && skip(Value(n.tag), p + |n.tag|, e) == Some(p + |WriteNode(n)|))
  }

  predicate EntryOk(ki: Kind, vi: Kind, lenient: bool, skip: Skipper, p: nat, e: nat, nodes: seq<Node>)
    decreases |nodes|
  {
    nodes == [] ||
    (EntryNodeOk(ki, vi, lenient, skip, p, e, nodes[0])
     && EntryOk(ki, vi, lenient, skip, p + |WriteNode(nodes[0])|, e, nodes[1..]))
  }

  /** From p to e, mem holds the records of an entry. */
  predicate EntryAt(mem: seq<byte>, p: nat, e: nat, ki: Kind, vi: Kind, lenient: bool, skip: Skipper,
                    nodes: seq<Node>) {
    EntryOk(ki, vi, lenient, skip, p, e, nodes) && At(mem, p, Write(nodes)) && p + |Write(nodes)| == e
  }

  /** The body of the last record with that tag. */
  function LastTagged(nodes: seq<Node>, tag: nat): Option<Body> {
    if nodes == [] then None
    else
      var later := LastTagged(nodes[1..], tag);
      if later.Some? then later else if Value(nodes[0].tag) == tag then Some(nodes[0].body) else None
  }

  /** A word stands for the value of the last record with that tag, or is the one there was. */
  predicate LastStands(mem: seq<byte>, k: Kind, number: nat, word: nat, default: nat, nodes: seq<Node>) {
    match LastTagged(nodes, EntryTag(number, k))
    case None => word == default
    case Some(b) => Stands(mem, k, word, b)
  }

  lemma EntryTags(k: Kind)
    requires KindOk(k)
    ensures KeyTag(k) == EntryTag(1, k) < EntryTag(2, k) == ValueTag(k) && EntryTag(1, k) < 16 <= EntryTag(2, k)
  {
  }

  /** An entry that was written is read: the last key and the last value. */
  lemma {:induction false} EntryRead(mem: seq<byte>, p: nat, e: nat, ki: Kind, vi: Kind, lenient: bool, skip: Skipper,
                                     nodes: seq<Node>, k: nat, v: nat)
    requires EntryAt(mem, p, e, ki, vi, lenient, skip, nodes) && KindOk(ki) && KindOk(vi)
    requires e < 0x1_0000_0000 && e + PADDING <= |mem|
    ensures var r := EntryIn(mem, p, e, ki, vi, lenient, skip, k, v);
            r.Entry? && LastStands(mem, ki, 1, r.key, k, nodes) && LastStands(mem, vi, 2, r.value, v, nodes)
    decreases |nodes|
  {
    hide VarintIn, ValueIn, CodeOk, At, Value, KeyTag, ValueTag, ScalarOk, EntryTag, WriteBody, Stands, EntryIn, Write;
    hide LastStands, LastTagged, EntryAt, EntryNodeOk, ScalarAt;
    EntryTags(ki);
    EntryTags(vi);
    if nodes == [] {
      assert p == e by { NothingWritten(); EntryEnds(mem, p, e, ki, vi, lenient, skip); }
      AtEnd(mem, e, ki, vi, lenient, skip, k, v);
      LastOfNone(mem, ki, 1, k);
      LastOfNone(mem, vi, 2, v);
    } else {
      var n, rest := nodes[0], nodes[1..];
      var q, z := p + |n.tag|, p + |WriteNode(n)|;
      EntryUnfold(mem, p, e, ki, vi, lenient, skip, nodes);
      CodeRead(mem, p, e, n.tag, 10);
      EntryMore(mem, p, e, ki, vi, lenient, skip, k, v);
      if Value(n.tag) == EntryTag(1, ki) {
        ValueRead(mem, ki, q, e, n.body, lenient);
        var w := ValueIn(mem, ki, q, e, lenient).value;
        EntryRead(mem, z, e, ki, vi, lenient, skip, rest, w, v);
        var t := EntryIn(mem, z, e, ki, vi, lenient, skip, w, v);
        LastMore(mem, ki, 1, t.key, w, k, nodes);
        LastMore(mem, vi, 2, t.value, v, v, nodes);
      } else if Value(n.tag) == EntryTag(2, vi) {
        ValueRead(mem, vi, q, e, n.body, lenient);
        var w := ValueIn(mem, vi, q, e, lenient).value;
        EntryRead(mem, z, e, ki, vi, lenient, skip, rest, k, w);
        var t := EntryIn(mem, z, e, ki, vi, lenient, skip, k, w);
        LastMore(mem, ki, 1, t.key, k, k, nodes);
        LastMore(mem, vi, 2, t.value, w, v, nodes);
      } else {
        EntryRead(mem, z, e, ki, vi, lenient, skip, rest, k, v);
        var t := EntryIn(mem, z, e, ki, vi, lenient, skip, k, v);
        LastMore(mem, ki, 1, t.key, k, k, nodes);
        LastMore(mem, vi, 2, t.value, v, v, nodes);
      }
    }
  }

  lemma EntryEnds(mem: seq<byte>, p: nat, e: nat, ki: Kind, vi: Kind, lenient: bool, skip: Skipper)
    requires EntryAt(mem, p, e, ki, vi, lenient, skip, [])
    ensures p == e
  {
  }

  /** The first record of an entry, and the rest. */
  lemma EntryUnfold(mem: seq<byte>, p: nat, e: nat, ki: Kind, vi: Kind, lenient: bool, skip: Skipper, nodes: seq<Node>)
    requires EntryAt(mem, p, e, ki, vi, lenient, skip, nodes) && nodes != []
    ensures var n := nodes[0];
            var q, z := p + |n.tag|, p + |WriteNode(n)|;
            && CodeOk(n.tag, 10) && At(mem, p, n.tag) && q <= z <= e && z == q + |WriteBody(n.body)|
            && EntryAt(mem, z, e, ki, vi, lenient, skip, nodes[1..])
            && (Value(n.tag) == EntryTag(1, ki) ==> ScalarAt(mem, ki, q, e, n.body, lenient))
            && (Value(n.tag) != EntryTag(1, ki) && Value(n.tag) == EntryTag(2, vi) ==>
                  ScalarAt(mem, vi, q, e, n.body, lenient))
            && (Value(n.tag) != EntryTag(1, ki) && Value(n.tag) != EntryTag(2, vi) ==>
               skip(Value(n.tag), q, e) == Some(z))
  {
    hide CodeOk, At, Value, ScalarOk, EntryTag, WriteBody, Write;
    FirstAt(mem, p, nodes);
  }

  lemma LastOfNone(mem: seq<byte>, k: Kind, number: nat, word: nat)
    ensures LastStands(mem, k, number, word, word, [])
  {
  }

  /** The last value of records is that of the rest, or that of the first, which is w. */
  lemma LastMore(mem: seq<byte>, k: Kind, number: nat, word: nat, w: nat, default: nat, nodes: seq<Node>)
    requires nodes != [] && LastStands(mem, k, number, word, w, nodes[1..])
    requires if Value(nodes[0].tag) == EntryTag(number, k) then Stands(mem, k, w, nodes[0].body) else w == default
    ensures LastStands(mem, k, number, word, default, nodes)
  {
    hide Stands, Value, EntryTag;
  }

  /** The rest of an entry after its first record. */
  lemma EntryMore(mem: seq<byte>, p: nat, e: nat, ki: Kind, vi: Kind, lenient: bool, skip: Skipper, k: nat, v: nat)
    requires e + PADDING <= |mem| && KindOk(ki) && KindOk(vi) && p < e && VarintIn(mem, p, e, 10).Some?
    ensures var (tag, q) := VarintIn(mem, p, e, 10).value;
            var r := EntryIn(mem, p, e, ki, vi, lenient, skip, k, v);
            if tag == KeyTag(ki) then
              var w := ValueIn(mem, ki, q, e, lenient);
              w.Got? ==> r == EntryIn(mem, w.end, e, ki, vi, lenient, skip, w.value, v)
            else if tag == ValueTag(vi) then
              var w := ValueIn(mem, vi, q, e, lenient);
              w.Got? ==> r == EntryIn(mem, w.end, e, ki, vi, lenient, skip, k, w.value)
            else
              skip(tag, q, e).Some? && skip(tag, q, e).value >= q ==>
              r == EntryIn(mem, skip(tag, q, e).value, e, ki, vi, lenient, skip, k, v)
  {
    hide VarintIn, ValueIn, KeyTag, ValueTag;
  }

  /** What an entry that is read starts with. */
  lemma EntryCases(mem: seq<byte>, p: nat, e: nat, ki: Kind, vi: Kind, lenient: bool, skip: Skipper, k: nat, v: nat)
    requires e + PADDING <= |mem| && KindOk(ki) && KindOk(vi) && EntryIn(mem, p, e, ki, vi, lenient, skip, k, v).Entry?
    ensures p <= e
    ensures p < e ==>
              && VarintIn(mem, p, e, 10).Some?
              && var (tag, q) := VarintIn(mem, p, e, 10).value;
                 && (tag == KeyTag(ki) ==>
                       var w := ValueIn(mem, ki, q, e, lenient);
                       w.Got? && EntryIn(mem, w.end, e, ki, vi, lenient, skip, w.value, v).Entry?)
                 && (tag != KeyTag(ki) && tag == ValueTag(vi) ==>
                       var w := ValueIn(mem, vi, q, e, lenient);
                       w.Got? && EntryIn(mem, w.end, e, ki, vi, lenient, skip, k, w.value).Entry?)
                 && (tag != KeyTag(ki) && tag != ValueTag(vi) ==>
                       && skip(tag, q, e).Some? && skip(tag, q, e).value >= q
                       && EntryIn(mem, skip(tag, q, e).value, e, ki, vi, lenient, skip, k, v).Entry?)
  {
    hide VarintIn, ValueIn, KeyTag, ValueTag;
  }

  /** The first record of an entry that is read, up to z, and what is known after it. */
  lemma EntryFirst(mem: seq<byte>, p: nat, e: nat, ki: Kind, vi: Kind, lenient: bool, skip: Skipper, k: nat, v: nat)
    returns (n: Node, z: nat, k1: nat, v1: nat)
    requires e + PADDING <= |mem| && KindOk(ki) && KindOk(vi) && EntryIn(mem, p, e, ki, vi, lenient, skip, k, v).Entry?
    requires p < e
    ensures p < z <= e && EntryNodeOk(ki, vi, lenient, skip, p, e, n)
    ensures At(mem, p, WriteNode(n)) && p + |WriteNode(n)| == z
    ensures EntryIn(mem, z, e, ki, vi, lenient, skip, k1, v1).Entry?
  {
    hide VarintIn, ValueIn, CodeOk, Value, KeyTag, ValueTag, ScalarOk, EntryTag, WriteBody, EntryIn, EntryNodeOk;
    hide WriteNode;
    EntryTags(ki);
    EntryTags(vi);
    EntryCases(mem, p, e, ki, vi, lenient, skip, k, v);
    var (tag, q) := VarintIn(mem, p, e, 10).value;
    CodeOf(mem, p, e, 10);
    k1, v1 := k, v;
    var b;
    if tag == KeyTag(ki) {
      b := ValueOf(mem, ki, q, e, lenient);
      var w := ValueIn(mem, ki, q, e, lenient);
      z, k1 := w.end, w.value;
    } else if tag == ValueTag(vi) {
      b := ValueOf(mem, vi, q, e, lenient);
      var w := ValueIn(mem, vi, q, e, lenient);
      z, v1 := w.end, w.value;
    } else {
      z := skip(tag, q, e).value;
      EntryCases(mem, z, e, ki, vi, lenient, skip, k, v);
      b := Other(mem[q..z]);
      OtherWritten(mem, q, z);
    }
    n := Node(mem[p..q], b);
    NodeThere(mem, p, q, z, b);
    EntryNode(ki, vi, lenient, skip, p, e, n);
  }

  /** Every entry that is read was written. */
  lemma {:induction false} EntryOf(mem: seq<byte>, p: nat, e: nat, ki: Kind, vi: Kind, lenient: bool, skip: Skipper,
                                   k: nat, v: nat)
    returns (nodes: seq<Node>)
    requires e + PADDING <= |mem| && KindOk(ki) && KindOk(vi) && EntryIn(mem, p, e, ki, vi, lenient, skip, k, v).Entry?
    ensures EntryAt(mem, p, e, ki, vi, lenient, skip, nodes)
    decreases e - p
  {
    hide EntryIn, Write, WriteNode, EntryNodeOk, EntryAt, At;
    EntryCases(mem, p, e, ki, vi, lenient, skip, k, v);
    nodes := [];
    if p < e {
      var n, z, k1, v1 := EntryFirst(mem, p, e, ki, vi, lenient, skip, k, v);
      var rest := EntryOf(mem, z, e, ki, vi, lenient, skip, k1, v1);
      EntryJoin(mem, p, e, ki, vi, lenient, skip, n, rest);
      nodes := [n] + rest;
    } else {
      EntryNone(mem, e, ki, vi, lenient, skip);
    }
  }

  lemma EntryNone(mem: seq<byte>, e: nat, ki: Kind, vi: Kind, lenient: bool, skip: Skipper)
    requires e <= |mem|
    ensures EntryAt(mem, e, e, ki, vi, lenient, skip, [])
  {
  }

  lemma OtherWritten(mem: seq<byte>, q: nat, z: nat)
    requires q <= z <= |mem|
    ensures WriteBody(Other(mem[q..z])) == mem[q..z]
  {
  }

  lemma NodeThere(mem: seq<byte>, p: nat, q: nat, z: nat, b: Body)
    requires p <= q <= z <= |mem| && WriteBody(b) == mem[q..z]
    ensures WriteNode(Node(mem[p..q], b)) == mem[p..z]
  {
    hide WriteBody;
  }

  lemma EntryNode(ki: Kind, vi: Kind, lenient: bool, skip: Skipper, p: nat, e: nat, n: Node)
    requires CodeOk(n.tag, 10)
    requires Value(n.tag) == EntryTag(1, ki) ==> ScalarOk(ki, n.body, lenient)
    requires Value(n.tag) != EntryTag(1, ki) && Value(n.tag) == EntryTag(2, vi) ==> ScalarOk(vi, n.body, lenient)
    requires Value(n.tag) != EntryTag(1, ki) && Value(n.tag) != EntryTag(2, vi) ==>
             n.body.Other? && skip(Value(n.tag), p + |n.tag|, e) == Some(p + |WriteNode(n)|)
    ensures EntryNodeOk(ki, vi, lenient, skip, p, e, n)
  {
  }

  lemma EntryJoin(mem: seq<byte>, p: nat, e: nat, ki: Kind, vi: Kind, lenient: bool, skip: Skipper, n: Node,
                  rest: seq<Node>)
    requires EntryNodeOk(ki, vi, lenient, skip, p, e, n) && At(mem, p, WriteNode(n))
    requires EntryAt(mem, p + |WriteNode(n)|, e, ki, vi, lenient, skip, rest)
    ensures EntryAt(mem, p, e, ki, vi, lenient, skip, [n] + rest)
  {
    hide EntryNodeOk, WriteNode;
    assert ([n] + rest)[1..] == rest;
    AtJoin(mem, p, WriteNode(n), Write(rest));
  }

  // ----- Entries of one key and one value -----

  /** A key and a value, in either order, are the records of an entry, wherever it stands. */
  lemma KeyAndValue(ki: Kind, vi: Kind, lenient: bool, skip: Skipper, p: nat, e: nat, kb: Body, vb: Body)
    requires KindOk(ki) && KindOk(vi) && ScalarOk(ki, kb, lenient) && ScalarOk(vi, vb, lenient)
    ensures var k, v := Node(Encode(8 + KindWire(ki)), kb), Node(Encode(16 + KindWire(vi)), vb);
            && Write([k, v]) == Encode(8 + KindWire(ki)) + WriteBody(kb) + (Encode(16 + KindWire(vi)) + WriteBody(vb))
            && Write([v, k]) == Encode(16 + KindWire(vi)) + WriteBody(vb) + (Encode(8 + KindWire(ki)) + WriteBody(kb))
            && EntryOk(ki, vi, lenient, skip, p, e, [k, v]) && EntryOk(ki, vi, lenient, skip, p, e, [v, k])
            && LastTagged([k, v], EntryTag(1, ki)) == LastTagged([v, k], EntryTag(1, ki)) == Some(kb)
            && LastTagged([k, v], EntryTag(2, vi)) == LastTagged([v, k], EntryTag(2, vi)) == Some(vb)
  {
    hide ScalarOk, Encode, WriteBody, Value, CodeOk;
    TagCode(8 + KindWire(ki));
    TagCode(16 + KindWire(vi));
    var k, v := Node(Encode(8 + KindWire(ki)), kb), Node(Encode(16 + KindWire(vi)), vb);
    TwoNodes(k, v);
    TwoNodes(v, k);
    TwoEntries(ki, vi, lenient, skip, p, e, k, v);
    TwoEntries(ki, vi, lenient, skip, p, e, v, k);
    TwoTagged(k, v, EntryTag(1, ki));
    TwoTagged(v, k, EntryTag(1, ki));
    TwoTagged(k, v, EntryTag(2, vi));
    TwoTagged(v, k, EntryTag(2, vi));
  }

  lemma TwoEntries(ki: Kind, vi: Kind, lenient: bool, skip: Skipper, p: nat, e: nat, a: Node, b: Node)
    ensures EntryOk(ki, vi, lenient, skip, p, e, [a, b]) <==>
            EntryNodeOk(ki, vi, lenient, skip, p, e, a)
            && EntryNodeOk(ki, vi, lenient, skip, p + |WriteNode(a)|, e, b)
  {
    hide EntryNodeOk, WriteNode;
    var q := p + |WriteNode(a)|;
    assert [a, b][1..] == [b] && [b][1..] == [];
    assert EntryOk(ki, vi, lenient, skip, q, e, [b]) <==> EntryNodeOk(ki, vi, lenient, skip, q, e, b);
  }

  lemma TwoTagged(a: Node, b: Node, tag: nat)
    ensures LastTagged([a, b], tag) ==
            if Value(b.tag) == tag then Some(b.body) else if Value(a.tag) == tag then Some(a.body) else None
  {
    hide Value;
    assert [a, b][1..] == [b] && [b][1..] == [];
    assert LastTagged([b], tag) == if Value(b.tag) == tag then Some(b.body) else None;
  }

  lemma TagCode(tag: nat)
    requires tag < 128
    ensures CodeOk(Encode(tag), 10) && Value(Encode(tag)) == tag
  {
    EncodeExact(tag);
    EncodeAtMostTen(tag);
  }

  lemma TwoNodes(a: Node, b: Node)
    ensures Write([a, b]) == WriteNode(a) + WriteNode(b)
  {
    assert [a, b][1..] == [b] && [b][1..] == [];
    assert Write([b]) == WriteNode(b) + [];
  }

  /** Keys are compared by what they stand for. */
  lemma KeyMeans(mem: seq<byte>, ki: Kind, word: nat, b: Body)
    requires Stands(mem, ki, word, b)
    ensures KeyOf(mem, ki, word) == if b.Sized? && (ki.Bytes? || ki.Text?) then Chars(b.bytes) else Number(word)
  {
  }
}
