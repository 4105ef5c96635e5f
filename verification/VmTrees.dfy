/**
 Messages as trees of records, with the field parsers that their types have for them, and that parsing what is written
 for a tree takes one step for each of its records, in order.
 */
module VmTrees {
  import opened Base128
  import opened MapEntry
  import opened Records
  import opened RecordValues
  import opened Values
  import opened VmSpec
  import opened VmValues
  import opened Wire
  import opened Words
  import opened Wrappers
  import B = Bits

  // ----- Trees that a type admits -----

  /** The field parser that a message of type ty has for a tag. */
  function FieldOf(types: seq<TypeParser>, ty: nat, tag: nat): (r: Option<nat>)
    ensures r.Some? ==> ty < |types| && r.value < |types[ty].fields|
  {
    if ty < |types| && tag in types[ty].tags && types[ty].tags[tag] < |types[ty].fields| then Some(types[ty].tags[tag])
    else None
  }

  /** A length and the records of a message, or of an entry of a map. */
  predicate NestOk(b: Body) {
    b.Nested? && CodeOk(b.size, 10) && Value(b.size) == |Write(b.nodes)|
  }

  /** A body at p that a field parser admits. */
  predicate Suits(env: Env, t: Thunk, p: nat, b: Body)
    decreases b
  {
    match t
    case Message(ty, _) => NestOk(b) && TreeOk(env, ty, p + |b.size|, b.nodes)
    case Messages(ty, _) => NestOk(b) && TreeOk(env, ty, p + |b.size|, b.nodes)
    case MapOf(ki, vi, _) =>
      NestOk(b) && EntryOk(ki, vi, env.lenient, env.skip, p + |b.size|, p + |WriteBody(b)|, b.nodes)
    case Packed(k, _) =>
      && b.Parts? && CodeOk(b.size, 10) && Value(b.size) == |Joined(b.parts)|
      && (if k.Fixed? then AllWide(b.parts, k.width) else AllCodes(b.parts))
    case _ => ScalarOk(ValueKind(t), b, env.lenient)
  }

  /** A record at `at` of a message of type ty: a known field, or any record that needs no schema. */
  predicate RecordOk(env: Env, ty: nat, at: nat, n: Node)
    decreases n
  {
    && CodeOk(n.tag, 9) && 8 <= Value(n.tag) < 0x1_0000_0000
    && match FieldOf(env.types, ty, Value(n.tag))
       case None => BodyOk(Value(n.tag), n.body, env.maxDepth)
       case Some(i) => Suits(env, env.types[ty].fields[i].thunk, at + |n.tag|, n.body)
  }

  /** The records of a message of type ty, from `at` on. */
  predicate TreeOk(env: Env, ty: nat, at: nat, nodes: seq<Node>)
    decreases nodes
  {
    nodes == [] || (RecordOk(env, ty, at, nodes[0]) && TreeOk(env, ty, at + |WriteNode(nodes[0])|, nodes[1..]))
  }

  /** From `at` to hi, the input is what is written for a tree. */
  predicate TreeAt(env: Env, ty: nat, at: nat, hi: nat, nodes: seq<Node>) {
    TreeOk(env, ty, at, nodes) && At(env.mem, at, Write(nodes)) && at + |Write(nodes)| == hi
  }

  // ----- Levels -----

  function Max(a: nat, b: nat): nat {
    if a > b then a else b
  }

  /** How deep messages nest; one that is empty is no level, nor, if frames are elided, one that ends its parent. */
  function Levels(types: seq<TypeParser>, elide: bool, ty: nat, nodes: seq<Node>): nat
    decreases nodes
  {
    if nodes == [] then 0
    else Max(NodeLevels(types, elide, ty, nodes[0], |nodes| == 1), Levels(types, elide, ty, nodes[1..]))
  }

  function NodeLevels(types: seq<TypeParser>, elide: bool, ty: nat, n: Node, last: bool): nat
    decreases n
  {
    match FieldOf(types, ty, Value(n.tag))
    case None => 0
    case Some(i) =>
      var t := types[ty].fields[i].thunk;
      if IsMessage(t) && n.body.Nested? && n.body.nodes != [] then
        (if elide && last then 0 else 1) + Levels(types, elide, t.ty, n.body.nodes)
      else 0
  }

  // ----- Steps -----

  /** A step for a record: its value is read, its message is entered, or it is passed over and kept. */
  datatype Step = Reads(field: nat, start: nat, end: nat) | Enters(field: nat, start: nat,
    end: nat) | Passes(start: nat, end: nat)

  /** One step for every record in stream order, but for unknown ones where they are to be discarded. */
  function Steps(env: Env, ty: nat, at: nat, nodes: seq<Node>): seq<Step>
    decreases nodes
  {
    if nodes == [] then []
    else NodeSteps(env, ty, at, nodes[0]) + Steps(env, ty, at + |WriteNode(nodes[0])|, nodes[1..])
  }

  function NodeSteps(env: Env, ty: nat, at: nat, n: Node): seq<Step>
    decreases n
  {
    var p, z := at + |n.tag|, at + |WriteNode(n)|;
    match FieldOf(env.types, ty, Value(n.tag))
    case None => if env.discardUnknown || (ty < |env.types| && env.types[ty].discardUnknown) then []
      else [Passes(at, z)]
    case Some(i) =>
      var t := env.types[ty].fields[i].thunk;
      if IsMessage(t) && n.body.Nested? then
        var s := p + |n.body.size|;
        [Enters(i, s, z)] + Steps(env, t.ty, s, n.body.nodes)
      else [Reads(i, p, z)]
  }

  function StepOf(e: Event): Step {
    match e
    case Known(_, field, start, end, _) => Reads(field, start, end)
    case Enter(_, field, _, start, end) => Enters(field, start, end)
    case Stray(_, field, start, end) => Enters(field, start, end)
    case Unknown(_, start, end) => Passes(start, end)
  }

  function StepsOf(events: seq<Event>): seq<Step> {
    seq(|events|, i requires 0 <= i < |events| => StepOf(events[i]))
  }

  // ----- What the records of a tree do, one after another -----

  ghost function Apply(env: Env, at: nat, ty: nat, msg: nat, nodes: seq<Node>, out: Out): Outcome
    requires ty < |env.types|
    decreases nodes
  {
    if nodes == [] then Done(out)
    else
      match ApplyNode(env, at, ty, msg, nodes[0], out)
      case Done(after) => Apply(env, at + |WriteNode(nodes[0])|, ty, msg, nodes[1..], after)
      case failure => failure
  }

  ghost function ApplyNode(env: Env, at: nat, ty: nat, msg: nat, n: Node, out: Out): Outcome
    requires ty < |env.types|
    decreases n
  {
    var tag, p, z := Value(n.tag), at + |n.tag|, at + |WriteNode(n)|;
    match FieldOf(env.types, ty, tag)
    case None => Done(UnknownOut(env, ty, msg, at, z, out))
    case Some(i) =>
      var t := env.types[ty].fields[i].thunk;
      if IsMessage(t) then
        if t.ty >= |env.types| || !n.body.Nested? then Malformed
        else
          var s := p + |n.body.size|;
          var e := EnterSub(|env.types|, true, out, msg, i, t, s, z);
          if n.body.nodes == [] then Done(e.out)
          else if e.Astray? then Misread
          else Apply(env, s, t.ty, e.sub, n.body.nodes, e.out)
      else if z + PADDING > |env.mem| || !ThunkOk(|env.types|, t, tag % 8) then Malformed
      else
        match KnownIn(env, t, tag % 8, p, z)
        case Got(c, _) => Done(FieldOut(out, msg, i, t, p, z, c))
        case _ => Malformed
  }

  // ----- Values of fields -----

  /** The bodies of the elements that a record of a list holds. */
  function Elements(t: Thunk, b: Body): seq<Body> {
    if t.Packed? && b.Parts? then
      seq(|b.parts|, i requires 0 <= i < |b.parts| => if t.item.Fixed? then Plain(b.parts[i]) else Coded(b.parts[i]))
    else [b]
  }

  /** The key of an entry: that of its last key, or zero, or no bytes. */
  function EntryKey(k: Kind, nodes: seq<Node>): Key {
    match LastTagged(nodes, EntryTag(1, k))
    case None => if k.Bytes? || k.Text? then Chars([]) else Number(0)
    case Some(b) => if (k.Bytes? || k.Text?) && b.Sized? then Chars(b.bytes) else Number(Num(k, b))
  }

  /** What was read stands for the body. */
  predicate Conveys(mem: seq<byte>, t: Thunk, c: Content, b: Body) {
    match t
    case Store(k, _, _) => c.Word? && Stands(mem, k, c.word, b)
    case Flag(_, _) => c.Word? && c.word == Num(Bool, b)
    case MapOf(ki, vi, _) => c.Pair? && b.Nested? && c.key == EntryKey(ki, b.nodes)
      && LastStands(mem, vi, 2, c.item, 0, b.nodes)
    case Message(_, _) => false
    case Messages(_, _) => false
    case _ =>
      var es := Elements(t, b);
      c.Items? && |c.items| == |es| && forall i :: 0 <= i < |es| ==> Stands(mem, t.item, c.items[i], es[i])
  }

  // ----- Reading a field that was written -----

  /** A field parser other than for messages reads a body it admits, and what it reads stands for that body. */
  lemma KnownRead(env: Env, t: Thunk, wireType: nat, p: nat, hi: nat, b: Body)
    requires ThunkOk(|env.types|, t, wireType) && !IsMessage(t) && Suits(env, t, p, b)
    requires At(env.mem, p, WriteBody(b)) && p + |WriteBody(b)| <= hi < 0x1_0000_0000 && hi + PADDING <= |env.mem|
    ensures var r := KnownIn(env, t, wireType, p, hi);
            r.Got? && r.end == p + |WriteBody(b)| && Conveys(env.mem, t, r.value, b)
  {
    hide At, ValueIn, BytesIn, ContentsIn, ScalarOk, EntryOk, Stands, CodeOk, Conveys, Write, Joined;
    if t.Packed? {
      SizedRead(env.mem, p, hi, b.size, Joined(b.parts));
      PackedRead(env, t, p + |b.size|, p + |WriteBody(b)|, b);
    } else if t.MapOf? {
      SizedRead(env.mem, p, hi, b.size, Write(b.nodes));
      MapRead(env, t, p + |b.size|, p + |WriteBody(b)|, b);
    } else {
      ValueRead(env.mem, ValueKind(t), p, hi, b, env.lenient);
      OneConveyed(env.mem, t, ValueIn(env.mem, ValueKind(t), p, hi, env.lenient).value, b);
    }
  }

  lemma OneConveyed(mem: seq<byte>, t: Thunk, word: nat, b: Body)
    requires (t.Store? || t.Flag? || t.Append?) && Stands(mem, ValueKind(t), word, b)
    ensures Conveys(mem, t, if t.Append? then Items([word]) else Word(word), b)
  {
    hide Num;
  }

  lemma MapRead(env: Env, t: Thunk, s: nat, z: nat, b: Body)
    requires t.MapOf? && KindOk(t.key) && KindOk(t.value) && s <= z < 0x1_0000_0000 && z + PADDING <= |env.mem|
    requires b.Nested? && EntryAt(env.mem, s, z, t.key, t.value, env.lenient, env.skip, b.nodes)
    ensures var r := ContentsIn(env, t, s, z); r.Got? && r.end == z && Conveys(env.mem, t, r.value, b)
  {
    hide EntryIn, EntryAt, LastStands;
    EntryRead(env.mem, s, z, t.key, t.value, env.lenient, env.skip, b.nodes, 0, 0);
    KeyRead(env.mem, t.key, EntryIn(env.mem, s, z, t.key, t.value, env.lenient, env.skip, 0, 0).key, b.nodes);
  }

  lemma KeyRead(mem: seq<byte>, k: Kind, word: nat, nodes: seq<Node>)
    requires LastStands(mem, k, 1, word, 0, nodes)
    ensures KeyOf(mem, k, word) == EntryKey(k, nodes)
  {
    hide LastTagged, Num, EntryTag;
  }

  lemma PackedRead(env: Env, t: Thunk, s: nat, z: nat, b: Body)
    requires t.Packed? && KindOk(t.item) && (t.item.Varint? || t.item.Fixed?) && s <= z && z + PADDING <= |env.mem|
    requires b.Parts? && (if t.item.Fixed? then AllWide(b.parts, t.item.width) else AllCodes(b.parts))
    requires At(env.mem, s, Joined(b.parts)) && s + |Joined(b.parts)| == z
    ensures var r := ContentsIn(env, t, s, z); r.Got? && r.end == z && Conveys(env.mem, t, r.value, b)
  {
    hide At, Joined, Varints, Borrowed, AllCodes, AllWide, Trunc, Conveys, Codes, SpelledAll;
    if t.item.Fixed? {
      WideRead(env.mem, s, b.parts, t.item.width);
      B.ModUnique(|Joined(b.parts)|, |b.parts|, 0, t.item.width);
      SpelledConveyed(env.mem, t, b);
    } else {
      CodesRead(env.mem, s, z, b.parts);
      CodesConveyed(env.mem, t, b);
    }
  }

  lemma SpelledConveyed(mem: seq<byte>, t: Thunk, b: Body)
    requires t.Packed? && t.item.Fixed? && b.Parts?
    ensures Conveys(mem, t, Items(SpelledAll(b.parts)), b)
  {
    SpelledAt(b.parts);
  }

  lemma {:induction false} SpelledAt(parts: seq<seq<byte>>)
    ensures |SpelledAll(parts)| == |parts| && forall i :: 0 <= i < |parts| ==> SpelledAll(parts)[i] == Spelled(parts[i])
  {
    hide Spelled;
    if parts != [] {
      SpelledAt(parts[1..]);
    }
  }

  lemma CodesConveyed(mem: seq<byte>, t: Thunk, b: Body)
    requires t.Packed? && t.item.Varint? && KindOk(t.item) && b.Parts?
    ensures Conveys(mem, t, Items(Trunc(Codes(b.parts), Limit(t.item.width))), b)
  {
    hide Limit, B.Pow2, Codes, Trunc, Value;
    LimitIsPow2(t.item.width);
    CodesAt(b.parts, Limit(t.item.width));
  }

  lemma {:induction false} CodesAt(parts: seq<seq<byte>>, m: nat)
    requires m > 0
    ensures |Trunc(Codes(parts), m)| == |parts|
    ensures forall i :: 0 <= i < |parts| ==> Trunc(Codes(parts), m)[i] == Value(parts[i]) % m
  {
    hide Value;
    if parts != [] {
      CodesAt(parts[1..], m);
      assert Codes(parts)[1..] == Codes(parts[1..]);
    }
  }

  // ----- Parsing what was written -----

  lemma FieldFor(types: seq<TypeParser>, ty: nat, tag: nat)
    requires TypesOk(types) && ty < |types|
    ensures FieldOf(types, ty, tag) == if tag in types[ty].tags then Some(types[ty].tags[tag]) else None
    ensures tag in types[ty].tags ==>
              var i := types[ty].tags[tag];
              i < |types[ty].fields| && types[ty].fields[i].number == tag
                && ThunkOk(|types|, types[ty].fields[i].thunk, tag % 8)
  {
    if tag in types[ty].tags {
      KnownField(types, ty, tag);
    }
  }

  lemma TagRead(mem: seq<byte>, p: nat, hi: nat, code: seq<byte>)
    requires At(mem, p, code) && CodeOk(code, 9) && p + |code| <= hi && hi + PADDING <= |mem|
    requires 8 <= Value(code) < 0x1_0000_0000
    ensures p < hi && TagIn(mem, p, hi) == Some((Value(code), p + |code|))
  {
    hide At, CodeOk, VarintIn, Value;
    CodeRead(mem, p, hi, code, 9);
  }

  /** Records are not empty. */
  lemma WriteSome(env: Env, ty: nat, at: nat, nodes: seq<Node>)
    requires TreeOk(env, ty, at, nodes)
    ensures nodes == [] <==> |Write(nodes)| == 0
  {
    if nodes != [] {
      CodeSome(nodes[0].tag, 9);
    }
  }

  /** The input that is left after a record of a tree. */
  lemma TreeMore(env: Env, ty: nat, at: nat, hi: nat, nodes: seq<Node>)
    requires TreeAt(env, ty, at, hi, nodes) && nodes != []
    ensures var n, z := nodes[0], at + |WriteNode(nodes[0])|;
            && RecordOk(env, ty, at, n) && At(env.mem, at, n.tag) && At(env.mem, at + |n.tag|, WriteBody(n.body))
            && z == at + |n.tag| + |WriteBody(n.body)| && at < z <= hi && (z == hi <==> |nodes| == 1)
            && TreeAt(env, ty, z, hi, nodes[1..])
  {
    hide At, RecordOk, WriteBody;
    FirstAt(env.mem, at, nodes);
    WriteSome(env, ty, at + |WriteNode(nodes[0])|, nodes[1..]);
    TagSome(env, ty, at, nodes[0]);
  }

  lemma TagSome(env: Env, ty: nat, at: nat, n: Node)
    requires RecordOk(env, ty, at, n)
    ensures |n.tag| > 0 && CodeOk(n.tag, 9) && 8 <= Value(n.tag) < 0x1_0000_0000
  {
    CodeSome(n.tag, 9);
  }

  /**
   Parsing what is written for a tree does what its records do, one after another, unless it nests too deep. This is the
   parse that heeds the which-words of oneofs.
   */
  lemma {:induction false} WalkWritten(env: Env, at: nat, hi: nat, ty: nat, msg: nat, depth: nat, nodes: seq<Node>,
                                       out: Out)
    requires TypesOk(env.types) && ty < |env.types| && env.byWhich && hi < 0x1_0000_0000 && hi + PADDING <= |env.mem|
    requires TreeAt(env, ty, at, hi, nodes) && Apply(env, at, ty, msg, nodes, out).Done?
    ensures Walk(env, at, hi, ty, msg, depth, out) ==
            if Levels(env.types, env.elide, ty, nodes) <= depth then Apply(env, at, ty, msg, nodes, out) else TooDeep
    decreases nodes
  {
    hide TypesOk, WalkRecord, TagIn, TreeAt, ApplyNode, NodeLevels, WriteNode;
    if nodes == [] {
      assert at == hi by { EmptyAt(env, ty, at, hi); }
    } else {
      TreeMore(env, ty, at, hi, nodes);
      NodeWritten(env, at, hi, ty, msg, depth, nodes[0], |nodes| == 1, out);
      WalkWritten(env, at + |WriteNode(nodes[0])|, hi, ty, msg, depth, nodes[1..],
                  ApplyNode(env, at, ty, msg, nodes[0], out).out);
    }
  }

  lemma EmptyAt(env: Env, ty: nat, at: nat, hi: nat)
    requires TreeAt(env, ty, at, hi, [])
    ensures at == hi
  {
  }

  lemma {:induction false} NodeWritten(env: Env, at: nat, hi: nat, ty: nat, msg: nat, depth: nat, n: Node, last: bool,
                                       out: Out)
    requires TypesOk(env.types) && ty < |env.types| && env.byWhich && hi < 0x1_0000_0000 && hi + PADDING <= |env.mem|
    requires RecordOk(env, ty, at, n) && At(env.mem, at, n.tag) && At(env.mem, at + |n.tag|, WriteBody(n.body))
    requires at + |WriteNode(n)| <= hi && (at + |WriteNode(n)| == hi <==> last)
    requires ApplyNode(env, at, ty, msg, n, out).Done?
    ensures Walk(env, at, hi, ty, msg, depth, out) ==
            if NodeLevels(env.types, env.elide, ty, n, last) > depth then TooDeep
            else Walk(env, at + |WriteNode(n)|, hi, ty, msg, depth, ApplyNode(env, at, ty, msg, n, out).out)
    decreases n
  {
    hide TypesOk, WalkRecord, TagIn, At, Walk, WriteBody, ApplyNode, NodeLevels;
    TagSome(env, ty, at, n);
    TagRead(env.mem, at, hi, n.tag);
    WalkFirst(env, at, hi, ty, msg, depth, out);
    FieldFor(env.types, ty, Value(n.tag));
    match FieldOf(env.types, ty, Value(n.tag))
    case None => UnknownWritten(env, at, hi, ty, msg, depth, n, last, out);
    case Some(i) =>
      if IsMessage(env.types[ty].fields[i].thunk) {
        MessageWritten(env, at, hi, ty, msg, depth, n, i, last, out);
      } else {
        KnownWritten(env, at, hi, ty, msg, depth, n, i, last, out);
      }
  }

  lemma WalkFirst(env: Env, at: nat, hi: nat, ty: nat, msg: nat, depth: nat, out: Out)
    requires TypesOk(env.types) && ty < |env.types| && at < hi && hi + PADDING <= |env.mem|
    requires TagIn(env.mem, at, hi).Some?
    ensures var (tag, p) := TagIn(env.mem, at, hi).value;
            Walk(env, at, hi, ty, msg, depth, out) == WalkRecord(env, at, tag, p, hi, ty, msg, depth, out)
  {
    hide TypesOk, WalkRecord, TagIn;
  }

  lemma UnknownWritten(env: Env, at: nat, hi: nat, ty: nat, msg: nat, depth: nat, n: Node, last: bool, out: Out)
    requires TypesOk(env.types) && ty < |env.types| && hi + PADDING <= |env.mem|
    requires RecordOk(env, ty, at, n) && At(env.mem, at + |n.tag|, WriteBody(n.body))
    requires at < at + |n.tag| <= at + |WriteNode(n)| <= hi && FieldOf(env.types, ty, Value(n.tag)).None?
    requires Value(n.tag) !in env.types[ty].tags
    ensures ApplyNode(env, at, ty, msg, n, out).Done? && NodeLevels(env.types, env.elide, ty, n, last) == 0
    ensures WalkRecord(env, at, Value(n.tag), at + |n.tag|, hi, ty, msg, depth, out) ==
            Walk(env, at + |WriteNode(n)|, hi, ty, msg, depth, ApplyNode(env, at, ty, msg, n, out).out)
  {
    hide TypesOk, WalkRecord, At, Walk, WriteBody, BodyOk, BodyEnd, UnknownOut, Value, CodeOk;
    BodyRead(env.mem, at + |n.tag|, hi, Value(n.tag), n.body, env.maxDepth);
    UnknownStep(env, at, Value(n.tag), at + |n.tag|, hi, ty, msg, depth, out);
  }

  lemma KnownWritten(env: Env, at: nat, hi: nat, ty: nat, msg: nat, depth: nat, n: Node, i: nat, last: bool, out: Out)
    requires TypesOk(env.types) && ty < |env.types| && hi < 0x1_0000_0000 && hi + PADDING <= |env.mem|
    requires RecordOk(env, ty, at, n) && At(env.mem, at + |n.tag|, WriteBody(n.body))
    requires at < at + |n.tag| <= at + |WriteNode(n)| <= hi && FieldOf(env.types, ty, Value(n.tag)) == Some(i)
    requires Value(n.tag) in env.types[ty].tags && i == env.types[ty].tags[Value(n.tag)]
    requires ThunkOk(|env.types|, env.types[ty].fields[i].thunk, Value(n.tag) % 8)
    requires !IsMessage(env.types[ty].fields[i].thunk)
    ensures ApplyNode(env, at, ty, msg, n, out).Done? && NodeLevels(env.types, env.elide, ty, n, last) == 0
    ensures WalkRecord(env, at, Value(n.tag), at + |n.tag|, hi, ty, msg, depth, out) ==
            Walk(env, at + |WriteNode(n)|, hi, ty, msg, depth, ApplyNode(env, at, ty, msg, n, out).out)
  {
    hide TypesOk, WalkRecord, At, Walk, WriteBody, KnownIn, FieldOut, Value, CodeOk, Suits, ThunkOk, Conveys;
    var t, p := env.types[ty].fields[i].thunk, at + |n.tag|;
    KnownRead(env, t, Value(n.tag) % 8, p, hi, n.body);
    KnownWithin(env, t, Value(n.tag) % 8, p, hi);
    KnownStep(env, at, Value(n.tag), p, hi, ty, msg, i, depth, out);
  }

  lemma {:induction false} MessageWritten(env: Env, at: nat, hi: nat, ty: nat, msg: nat, depth: nat, n: Node, i: nat,
                                          last: bool, out: Out)
    requires TypesOk(env.types) && ty < |env.types| && env.byWhich && hi < 0x1_0000_0000 && hi + PADDING <= |env.mem|
    requires RecordOk(env, ty, at, n) && At(env.mem, at + |n.tag|, WriteBody(n.body))
    requires at < at + |n.tag| <= at + |WriteNode(n)| <= hi && (at + |WriteNode(n)| == hi <==> last)
    requires FieldOf(env.types, ty, Value(n.tag)) == Some(i) && IsMessage(env.types[ty].fields[i].thunk)
    requires Value(n.tag) in env.types[ty].tags && i == env.types[ty].tags[Value(n.tag)]
    requires env.types[ty].fields[i].thunk.ty < |env.types| && ApplyNode(env, at, ty, msg, n, out).Done?
    ensures WalkRecord(env, at, Value(n.tag), at + |n.tag|, hi, ty, msg, depth, out) ==
            if NodeLevels(env.types, env.elide, ty, n, last) > depth then TooDeep
            else Walk(env, at + |WriteNode(n)|, hi, ty, msg, depth, ApplyNode(env, at, ty, msg, n, out).out)
    decreases n, 0
  {
    hide TypesOk, WalkRecord, At, Walk, Value, CodeOk, EnterSub, BytesIn, TreeOk, Write, Apply, Levels;
    var t, p, z := env.types[ty].fields[i].thunk, at + |n.tag|, at + |WriteNode(n)|;
    var s, nodes := p + |n.body.size|, n.body.nodes;
    SizedRead(env.mem, p, hi, n.body.size, Write(nodes));
    KnownStep(env, at, Value(n.tag), p, hi, ty, msg, i, depth, out);
    WriteSome(env, t.ty, s, nodes);
    var e := EnterSub(|env.types|, true, out, msg, i, t, s, z);
    EnterType(|env.types|, out, msg, i, t, s, z);
    if nodes != [] && !(Level(env, z, hi) && depth == 0) {
      WalkWritten(env, s, z, t.ty, e.sub, Below(env, z, hi, depth), nodes, e.out);
    }
  }

  /** With the which-words heeded, a submessage has the type of its field. */
  lemma EnterType(types: nat, out: Out, msg: nat, field: nat, t: Thunk, start: nat, end: nat)
    requires IsMessage(t) && t.ty < types
    ensures var e := EnterSub(types, true, out, msg, field, t, start, end); e.Into? ==> e.ty == t.ty
  {
    hide LoadPointer;
  }

  // ----- The steps of a parse -----

  lemma StepsMore(events: seq<Event>, e: Event)
    ensures StepsOf(events + [e]) == StepsOf(events) + [StepOf(e)]
  {
  }

  lemma EnterStepOf(types: nat, out: Out, msg: nat, field: nat, t: Thunk, start: nat, end: nat)
    requires IsMessage(t) && t.ty < types
    ensures StepsOf(EnterSub(types, true, out, msg, field, t, start, end).out.events) ==
            StepsOf(out.events) + [Enters(field, start, end)]
  {
    hide LoadPointer, StepsOf;
    var events := EnterSub(types, true, out, msg, field, t, start, end).out.events;
    StepsMore(out.events, events[|out.events|]);
  }

  /** The records of a tree take exactly their steps. */
  lemma {:induction false} ApplySteps(env: Env, at: nat, ty: nat, msg: nat, nodes: seq<Node>, out: Out)
    requires ty < |env.types| && Apply(env, at, ty, msg, nodes, out).Done?
    ensures StepsOf(Apply(env, at, ty, msg, nodes, out).out.events) == StepsOf(out.events) + Steps(env, ty, at, nodes)
    decreases nodes
  {
    hide ApplyNode, NodeSteps, StepsOf, WriteNode;
    if nodes != [] {
      var after := ApplyNode(env, at, ty, msg, nodes[0], out).out;
      NodeApplied(env, at, ty, msg, nodes[0], out);
      ApplySteps(env, at + |WriteNode(nodes[0])|, ty, msg, nodes[1..], after);
    }
  }

  lemma {:induction false} NodeApplied(env: Env, at: nat, ty: nat, msg: nat, n: Node, out: Out)
    requires ty < |env.types| && ApplyNode(env, at, ty, msg, n, out).Done?
    ensures StepsOf(ApplyNode(env, at, ty, msg, n, out).out.events) == StepsOf(out.events) + NodeSteps(env, ty, at, n)
    decreases n
  {
    hide StepsOf, EnterSub, KnownIn, Stored, WriteBody, Value, Apply, Steps, FieldOf;
    var p, z := at + |n.tag|, at + |WriteNode(n)|;
    match FieldOf(env.types, ty, Value(n.tag))
    case None => StepsMore(out.events, Unknown(msg, at, z));
    case Some(i) =>
      var t := env.types[ty].fields[i].thunk;
      if IsMessage(t) {
        var s := p + |n.body.size|;
        var e := EnterSub(|env.types|, true, out, msg, i, t, s, z);
        EnterStepOf(|env.types|, out, msg, i, t, s, z);
        if n.body.nodes != [] {
          ApplySteps(env, s, t.ty, e.sub, n.body.nodes, e.out);
        } else {
          assert Steps(env, t.ty, s, []) == [] by { NoSteps(env, t.ty, s); }
        }
      } else {
        var c := KnownIn(env, t, Value(n.tag) % 8, p, z).value;
        StoredCells(out, msg, i, t, c);
        StepsMore(out.events, Known(msg, i, p, z, c));
      }
  }

  lemma NoSteps(env: Env, ty: nat, at: nat)
    ensures Steps(env, ty, at, []) == []
  {
  }

  // ----- The tree of a parse -----

  /** Whatever a field parser other than for messages reads is the writing of a body it admits. */
  lemma KnownOf(env: Env, t: Thunk, wireType: nat, p: nat, hi: nat) returns (b: Body)
    requires ThunkOk(|env.types|, t, wireType) && !IsMessage(t) && hi + PADDING <= |env.mem|
    requires KnownIn(env, t, wireType, p, hi).Got?
    ensures Suits(env, t, p, b) && WriteBody(b) == env.mem[p..KnownIn(env, t, wireType, p, hi).end]
  {
    hide ValueIn, BytesIn, EntryIn, EntryOk, ScalarOk, CodeOk, EntryAt, Value, Varints, Borrowed, Suits, WriteBody;
    var z := KnownIn(env, t, wireType, p, hi).end;
    if t.Packed? || t.MapOf? {
      SizedOf(env.mem, p, hi);
      var s := BytesIn(env.mem, p, hi).value.0;
      if t.MapOf? {
        var nodes := EntryOf(env.mem, s, z, t.key, t.value, env.lenient, env.skip, 0, 0);
        b := EntryBody(env, t, p, s, z, nodes);
      } else {
        b := PackedBody(env, t, p, s, z);
      }
    } else {
      b := ValueOf(env.mem, ValueKind(t), p, hi, env.lenient);
      SuitsOne(env, t, p, b);
    }
  }

  lemma SuitsOne(env: Env, t: Thunk, p: nat, b: Body)
    requires t.Store? || t.Flag? || t.Append?
    ensures Suits(env, t, p, b) <==> ScalarOk(ValueKind(t), b, env.lenient)
  {
    hide ScalarOk;
  }

  lemma PackedBody(env: Env, t: Thunk, p: nat, s: nat, z: nat) returns (b: Body)
    requires t.Packed? && KindOk(t.item) && (t.item.Varint? || t.item.Fixed?) && p <= s <= z && z + PADDING <= |env.mem|
    requires CodeOk(env.mem[p..s], 10) && Value(env.mem[p..s]) == |env.mem[s..z]| && ContentsIn(env, t, s, z).Got?
    ensures Suits(env, t, p, b) && WriteBody(b) == env.mem[p..z]
  {
    hide Varints, CodeOk, Value, Joined, AllCodes, AllWide, Borrowed, Trunc;
    var parts;
    if t.item.Fixed? {
      parts := WideOf(env.mem[s..z], t.item.width, (z - s) / t.item.width);
    } else {
      parts := CodesOf(env.mem, s, z);
    }
    b := Parts(env.mem[p..s], parts);
    assert env.mem[p..z] == env.mem[p..s] + env.mem[s..z];
  }

  lemma EntryBody(env: Env, t: Thunk, p: nat, s: nat, z: nat, nodes: seq<Node>) returns (b: Body)
    requires t.MapOf? && p <= s <= z <= |env.mem| && CodeOk(env.mem[p..s], 10)
    requires Value(env.mem[p..s]) == |env.mem[s..z]|
    requires EntryAt(env.mem, s, z, t.key, t.value, env.lenient, env.skip, nodes)
    ensures Suits(env, t, p, b) && WriteBody(b) == env.mem[p..z]
  {
    hide EntryOk, CodeOk, Value, Write;
    b := Nested(env.mem[p..s], nodes);
    assert env.mem[p..z] == env.mem[p..s] + env.mem[s..z];
  }

  /** Every input that is parsed is what is written for a tree. */
  lemma {:induction false} TreeOf(env: Env, lo: nat, hi: nat, ty: nat, msg: nat, depth: nat, out: Out)
    returns (nodes: seq<Node>)
    requires TypesOk(env.types) && ty < |env.types| && env.byWhich && lo <= hi && hi + PADDING <= |env.mem|
    requires Walk(env, lo, hi, ty, msg, depth, out).Done?
    ensures TreeAt(env, ty, lo, hi, nodes)
    decreases hi - lo, 0
  {
    hide TypesOk, WalkRecord, TagIn, TreeAt, RecordOk, WriteNode, At;
    nodes := [];
    if lo < hi {
      var (tag, p) := TagIn(env.mem, lo, hi).value;
      var n, z, after := RecordOf(env, lo, tag, p, hi, ty, msg, depth, out);
      var rest := TreeOf(env, z, hi, ty, msg, depth, after);
      nodes := [n] + rest;
      TreeJoin(env, ty, lo, hi, n, rest);
    } else {
      NothingAt(env.mem, lo, []);
      NoTree(env, ty, lo);
    }
  }

  lemma NoTree(env: Env, ty: nat, at: nat)
    requires at <= |env.mem|
    ensures TreeAt(env, ty, at, at, [])
  {
  }

  lemma TreeJoin(env: Env, ty: nat, at: nat, hi: nat, n: Node, rest: seq<Node>)
    requires RecordOk(env, ty, at, n) && At(env.mem, at, WriteNode(n)) && TreeAt(env, ty, at + |WriteNode(n)|, hi, rest)
    ensures TreeAt(env, ty, at, hi, [n] + rest)
  {
    hide RecordOk, WriteNode, At;
    assert ([n] + rest)[1..] == rest;
    AtJoin(env.mem, at, WriteNode(n), Write(rest));
  }

  lemma {:induction false} RecordOf(env: Env, lo: nat, tag: nat, p: nat, hi: nat, ty: nat, msg: nat, depth: nat,
                                    out: Out)
    returns (n: Node, z: nat, after: Out)
    requires TypesOk(env.types) && ty < |env.types| && env.byWhich && lo < hi && hi + PADDING <= |env.mem|
    requires TagIn(env.mem, lo, hi) == Some((tag, p)) && WalkRecord(env, lo, tag, p, hi, ty, msg, depth, out).Done?
    ensures RecordOk(env, ty, lo, n) && At(env.mem, lo, WriteNode(n)) && lo + |WriteNode(n)| == z && lo < z <= hi
    ensures Walk(env, z, hi, ty, msg, depth, after).Done?
    decreases hi - p, 2
  {
    hide TypesOk, BytesIn, BodyEnd, FieldOut, UnknownOut, KnownIn, Walk, WalkSub, WriteBody, BodyOk, Suits, CodeOk;
    hide Value, At;
    TagOf(env.mem, lo, hi);
    FieldFor(env.types, ty, tag);
    var code, b := env.mem[lo..p], Other([]);
    if tag !in env.types[ty].tags {
      UnknownStep(env, lo, tag, p, hi, ty, msg, depth, out);
      b := BodyOf(env.mem, p, hi, tag, env.maxDepth);
      z := BodyEnd(env.mem, p, hi, tag, env.maxDepth).value;
      after := UnknownOut(env, ty, msg, lo, z, out);
    } else {
      var i := env.types[ty].tags[tag];
      KnownStep(env, lo, tag, p, hi, ty, msg, i, depth, out);
      var t := env.types[ty].fields[i].thunk;
      if IsMessage(t) {
        var (s, e) := BytesIn(env.mem, p, hi).value;
        b, after := SubOf(env, p, s, e, hi, ty, msg, i, depth, out);
        z := e;
      } else {
        b := KnownOf(env, t, tag % 8, p, hi);
        var r := KnownIn(env, t, tag % 8, p, hi);
        z, after := r.end, FieldOut(out, msg, i, t, p, r.end, r.value);
      }
    }
    n := Node(code, b);
    NodeThere(env.mem, lo, p, z, b);
    SliceAt(env.mem, lo, z);
  }

  lemma SliceAt(mem: seq<byte>, p: nat, z: nat)
    requires p <= z <= |mem|
    ensures At(mem, p, mem[p..z])
  {
  }

  lemma TagOf(mem: seq<byte>, p: nat, hi: nat)
    requires hi + PADDING <= |mem| && TagIn(mem, p, hi).Some?
    ensures var (tag, q) := TagIn(mem, p, hi).value;
            p < q <= hi && CodeOk(mem[p..q], 9) && Value(mem[p..q]) == tag && 8 <= tag < 0x1_0000_0000
  {
    hide VarintIn;
    CodeOf(mem, p, hi, 9);
  }

  lemma {:induction false} SubOf(env: Env, p: nat, s: nat, z: nat, hi: nat, ty: nat, msg: nat, i: nat, depth: nat,
                                 out: Out)
    returns (b: Body, after: Out)
    requires TypesOk(env.types) && MessageField(env.types, ty, i) && env.byWhich && hi + PADDING <= |env.mem|
    requires BytesIn(env.mem, p, hi) == Some((s, z)) && WalkSub(env, s, z, hi, ty, msg, i, depth, out).Done?
    ensures Suits(env, env.types[ty].fields[i].thunk, p, b) && WriteBody(b) == env.mem[p..z]
    ensures Walk(env, z, hi, ty, msg, depth, after).Done?
    decreases hi - s, 1
  {
    hide TypesOk, EnterSub, Walk, BytesIn, CodeOk, Value, TreeAt;
    var t := env.types[ty].fields[i].thunk;
    var e := EnterSub(|env.types|, true, out, msg, i, t, s, z);
    EnterType(|env.types|, out, msg, i, t, s, z);
    SizedOf(env.mem, p, hi);
    var nodes;
    if s == z {
      nodes, after := [], e.out;
      NoTree(env, t.ty, s);
    } else {
      var below := Below(env, z, hi, depth);
      nodes := TreeOf(env, s, z, t.ty, e.sub, below, e.out);
      after := Walk(env, s, z, t.ty, e.sub, below, e.out).out;
    }
    b := Nested(env.mem[p..s], nodes);
    NestThere(env, t, p, s, z, nodes);
  }

  lemma NestThere(env: Env, t: Thunk, p: nat, s: nat, z: nat, nodes: seq<Node>)
    requires IsMessage(t) && p <= s <= z <= |env.mem| && CodeOk(env.mem[p..s], 10)
    requires Value(env.mem[p..s]) == |env.mem[s..z]|
    requires TreeAt(env, t.ty, s, z, nodes)
    ensures Suits(env, t, p, Nested(env.mem[p..s], nodes)) && WriteBody(Nested(env.mem[p..s], nodes)) == env.mem[p..z]
  {
    hide TreeOk, CodeOk, Value, Write;
    assert env.mem[p..z] == env.mem[p..s] + env.mem[s..z];
  }
}
