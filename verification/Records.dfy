/**
 The records of a message as trees, and how they are written: the encoding rules of Protocol Buffers, without a word on
 how they are read. Varints are kept as they are spelled, minimal or not, so that every input has its tree.
 */
module Records {
  import opened Base128
  import opened Wire
  import opened Words
  import opened Wrappers

  /**
   The body of a record: a varint; four or eight bytes; a length and that many bytes, as a whole, in parts, or as the
   records of a message; the records of a group and its end tag; or bytes of no known form.
   */
  datatype Body =
    | Coded(code: seq<byte>)
    | Plain(bytes: seq<byte>)
    | Sized(size: seq<byte>, bytes: seq<byte>)
    | Parts(size: seq<byte>, parts: seq<seq<byte>>)
    | Nested(size: seq<byte>, nodes: seq<Node>)
    | Group(nodes: seq<Node>, end: seq<byte>)
    | Other(bytes: seq<byte>)

  /** A record: its tag and its body. */
  datatype Node = Node(tag: seq<byte>, body: Body)

  // ----- Writing -----

  function Write(nodes: seq<Node>): seq<byte>
    decreases nodes
  {
    if nodes == [] then [] else WriteNode(nodes[0]) + Write(nodes[1..])
  }

  function WriteNode(n: Node): seq<byte>
    decreases n
  {
    n.tag + WriteBody(n.body)
  }

  function WriteBody(b: Body): seq<byte>
    decreases b
  {
    match b
    case Coded(code) => code
    case Plain(bytes) => bytes
    case Sized(size, bytes) => size + bytes
    case Parts(size, parts) => size + Joined(parts)
    case Nested(size, nodes) => size + Write(nodes)
    case Group(nodes, end) => Write(nodes) + end
    case Other(bytes) => bytes
  }

  function Joined(parts: seq<seq<byte>>): seq<byte> {
    if parts == [] then [] else parts[0] + Joined(parts[1..])
  }

  /** mem has the bytes s at p. */
  predicate At(mem: seq<byte>, p: nat, s: seq<byte>) {
    p + |s| <= |mem| && mem[p..p + |s|] == s
  }

  // ----- Records that need no schema -----

  /** A varint of at most so many bytes and 64 bits. */
  predicate CodeOk(code: seq<byte>, limit: nat) {
    IsVarint(code) && |code| <= limit && Value(code) < TWO64
  }

  /**
   A body that a tag may have: wire type 0 is for varints, 1 and 5 for eight and four bytes, 2 for lengths, 3 for
   groups.
   */
  predicate BodyOk(tag: nat, b: Body, depth: int)
    decreases b
  {
    match b
    case Coded(code) => tag % 8 == 0 && CodeOk(code, 10)
    case Plain(bytes) => (tag % 8 == 1 && |bytes| == 8) || (tag % 8 == 5 && |bytes| == 4)
    case Sized(size, bytes) => tag % 8 == 2 && CodeOk(size, 10) && Value(size) == |bytes|
    case Group(nodes, end) =>
      tag % 8 == 3 && depth >= 0 && CodeOk(end, 10) && Value(end) == tag / 8 * 8 + 4 && NodesOk(nodes, depth - 1)
    case _ => false
  }

  /** The records of a group, in which groups may nest so deep. */
  predicate NodesOk(nodes: seq<Node>, depth: int)
    decreases nodes
  {
    nodes == [] || (NodeOk(nodes[0], depth) && NodesOk(nodes[1..], depth))
  }

  predicate NodeOk(n: Node, depth: int)
    decreases n
  {
    CodeOk(n.tag, 10) && 8 <= Value(n.tag) < 0x1_0000_0000 && BodyOk(Value(n.tag), n.body, depth)
  }

  /** Between p and hi, mem starts with such a body. */
  predicate BodyAt(mem: seq<byte>, p: nat, hi: nat, tag: nat, b: Body, depth: int) {
    BodyOk(tag, b, depth) && At(mem, p, WriteBody(b)) && p + |WriteBody(b)| <= hi
  }

  /** Between p and hi, mem starts with the records of the group of that number and its end tag. */
  predicate GroupAt(mem: seq<byte>, p: nat, hi: nat, number: nat, nodes: seq<Node>, code: seq<byte>, depth: int) {
    && NodesOk(nodes, depth - 1) && CodeOk(code, 10) && Value(code) == number * 8 + 4
    && At(mem, p, Write(nodes) + code) && p + |Write(nodes) + code| <= hi
  }

  // ----- Reading what was written -----

  lemma AtSplit(mem: seq<byte>, p: nat, a: seq<byte>, b: seq<byte>)
    requires At(mem, p, a + b)
    ensures At(mem, p, a) && At(mem, p + |a|, b)
  {
    var s := mem[p..p + |a + b|];
    assert mem[p..p + |a|] == s[..|a|] && mem[p + |a|..p + |a| + |b|] == s[|a|..];
  }

  lemma AtJoin(mem: seq<byte>, p: nat, a: seq<byte>, b: seq<byte>)
    requires At(mem, p, a) && At(mem, p + |a|, b)
    ensures At(mem, p, a + b)
  {
  }

  /** The first record, its tag and its body, and the rest. */
  lemma FirstAt(mem: seq<byte>, p: nat, nodes: seq<Node>)
    requires nodes != [] && At(mem, p, Write(nodes))
    ensures var n := nodes[0];
            && |Write(nodes)| == |WriteNode(n)| + |Write(nodes[1..])| && |WriteNode(n)| == |n.tag| + |WriteBody(n.body)|
            && At(mem, p, n.tag) && At(mem, p + |n.tag|, WriteBody(n.body)) && At(mem, p, WriteNode(n))
            && At(mem, p + |WriteNode(n)|, Write(nodes[1..]))
  {
    hide WriteBody, At;
    var n := nodes[0];
    AtSplit(mem, p, WriteNode(n), Write(nodes[1..]));
    AtSplit(mem, p, n.tag, WriteBody(n.body));
  }

  lemma NothingWritten()
    ensures Write([]) == []
  {
  }

  lemma CodeRead(mem: seq<byte>, p: nat, hi: nat, code: seq<byte>, limit: nat)
    requires At(mem, p, code) && CodeOk(code, limit) && limit <= 10 && p + |code| <= hi && hi + PADDING <= |mem|
    ensures p < p + |code| && VarintIn(mem, p, hi, limit) == Some((Value(code), p + |code|))
  {
    hide Value, IsVarint, VarintLength, VarintIn;
    CodeSome(code, limit);
    LengthOfVarint(mem, p, |code|, limit);
    VarintThere(mem, p, hi, limit);
  }

  lemma VarintThere(mem: seq<byte>, p: nat, hi: nat, limit: nat)
    requires hi + PADDING <= |mem| && limit <= 10 && p < hi
    requires var n := VarintLength(mem, p, limit); n <= limit && p + n <= hi && Value(mem[p..p + n]) < TWO64
    ensures var n := VarintLength(mem, p, limit); VarintIn(mem, p, hi, limit) == Some((Value(mem[p..p + n]), p + n))
  {
    hide Value, VarintLength, IsVarint;
  }

  lemma CodeSome(code: seq<byte>, limit: nat)
    requires CodeOk(code, limit)
    ensures |code| > 0
  {
  }

  lemma CodeOf(mem: seq<byte>, p: nat, hi: nat, limit: nat)
    requires hi + PADDING <= |mem| && limit <= 10 && VarintIn(mem, p, hi, limit).Some?
    ensures var (v, q) := VarintIn(mem, p, hi, limit).value;
            p < q <= hi && CodeOk(mem[p..q], limit) && Value(mem[p..q]) == v && At(mem, p, mem[p..q])
  {
  }

  lemma SizedRead(mem: seq<byte>, p: nat, hi: nat, size: seq<byte>, bytes: seq<byte>)
    requires At(mem, p, size + bytes) && CodeOk(size, 10) && Value(size) == |bytes|
    requires p + |size + bytes| <= hi && hi + PADDING <= |mem|
    ensures BytesIn(mem, p, hi) == Some((p + |size|, p + |size + bytes|)) && At(mem, p + |size|, bytes)
  {
    hide CodeOk, VarintIn;
    AtSplit(mem, p, size, bytes);
    CodeRead(mem, p, hi, size, 10);
  }

  lemma SizedOf(mem: seq<byte>, p: nat, hi: nat)
    requires hi + PADDING <= |mem| && BytesIn(mem, p, hi).Some?
    ensures var (s, z) := BytesIn(mem, p, hi).value;
            && p < s <= z <= hi && CodeOk(mem[p..s], 10) && Value(mem[p..s]) == |mem[s..z]|
            && mem[p..z] == mem[p..s] + mem[s..z]
  {
    hide CodeOk, VarintIn;
    CodeOf(mem, p, hi, 10);
  }

  /** A body ends where its writing does. */
  lemma {:induction false} BodyRead(mem: seq<byte>, p: nat, hi: nat, tag: nat, b: Body, depth: int)
    requires BodyAt(mem, p, hi, tag, b, depth) && hi + PADDING <= |mem|
    ensures BodyEnd(mem, p, hi, tag, depth) == Some(p + |WriteBody(b)|)
    decreases b
  {
    hide CodeOk, VarintIn, BytesIn, At;
    match b
    case Coded(code) => CodeRead(mem, p, hi, code, 10);
    case Sized(size, bytes) => SizedRead(mem, p, hi, size, bytes);
    case Group(nodes, end) => GroupRead(mem, p, hi, tag / 8, nodes, end, depth);
    case _ =>
  }

  lemma {:induction false} GroupRead(mem: seq<byte>, p: nat, hi: nat, number: nat, nodes: seq<Node>, end: seq<byte>,
                                     depth: int)
    requires NodesOk(nodes, depth - 1) && CodeOk(end, 10) && Value(end) == number * 8 + 4
    requires At(mem, p, Write(nodes) + end) && p + |Write(nodes) + end| <= hi && hi + PADDING <= |mem|
    ensures GroupEnd(mem, p, hi, number, depth) == Some(p + |Write(nodes) + end|)
    decreases nodes
  {
    hide CodeOk, VarintIn, At, BodyEnd, GroupEnd, Write, WriteNode, WriteBody, BodyOk, NodesOk, Value;
    if nodes == [] {
      WriteNone(end, depth);
      GroupEndRead(mem, p, hi, number, end, depth);
    } else {
      var n := nodes[0];
      var body, rest := WriteBody(n.body), Write(nodes[1..]) + end;
      WriteFirst(nodes, end);
      NodesFirst(nodes, depth - 1);
      AtSplit(mem, p, n.tag, body + rest);
      AtSplit(mem, p + |n.tag|, body, rest);
      var v, q, z := Value(n.tag), p + |n.tag|, p + |n.tag| + |body|;
      CodeRead(mem, p, hi, n.tag, 10);
      NotAnEnd(v, n.body, depth - 1, number);
      BodyRead(mem, q, hi, v, n.body, depth - 1);
      GroupMore(mem, p, hi, number, depth);
      GroupRead(mem, z, hi, number, nodes[1..], end, depth);
    }
  }

  lemma GroupEndRead(mem: seq<byte>, p: nat, hi: nat, number: nat, end: seq<byte>, depth: int)
    requires CodeOk(end, 10) && Value(end) == number * 8 + 4
    requires At(mem, p, end) && p + |end| <= hi && hi + PADDING <= |mem|
    ensures GroupEnd(mem, p, hi, number, depth) == Some(p + |end|)
  {
    hide CodeOk, VarintIn, At, BodyEnd;
    CodeRead(mem, p, hi, end, 10);
  }

  lemma NodesFirst(nodes: seq<Node>, depth: int)
    requires NodesOk(nodes, depth) && nodes != []
    ensures NodeOk(nodes[0], depth) && NodesOk(nodes[1..], depth)
  {
  }

  lemma WriteFirst(nodes: seq<Node>, end: seq<byte>)
    requires nodes != []
    ensures var n, rest := nodes[0], Write(nodes[1..]) + end;
            && Write(nodes) + end == n.tag + (WriteBody(n.body) + rest)
            && |Write(nodes) + end| == |n.tag| + |WriteBody(n.body)| + |rest|
  {
    hide WriteBody;
    var n, more := nodes[0], Write(nodes[1..]);
    assert Write(nodes) == n.tag + WriteBody(n.body) + more;
    hide Write;
    Associate(n.tag, WriteBody(n.body), more, end);
  }

  lemma Associate(a: seq<byte>, b: seq<byte>, c: seq<byte>, d: seq<byte>)
    ensures a + b + c + d == a + (b + (c + d))
  {
  }

  /** No record of a group has the tag that ends it. */
  lemma NotAnEnd(tag: nat, b: Body, depth: int, number: nat)
    requires BodyOk(tag, b, depth)
    ensures tag != number * 8 + 4
  {
    assert (number * 8 + 4) % 8 == 4;
  }

  /** The records of a group after the first. */
  lemma GroupMore(mem: seq<byte>, p: nat, hi: nat, number: nat, depth: int)
    requires hi + PADDING <= |mem| && VarintIn(mem, p, hi, 10).Some?
    requires var (v, q) := VarintIn(mem, p, hi, 10).value;
             v != number * 8 + 4 && 8 <= v < 0x1_0000_0000 && BodyEnd(mem, q, hi, v, depth - 1).Some?
    ensures var (v, q) := VarintIn(mem, p, hi, 10).value;
            GroupEnd(mem, p, hi, number, depth) ==
            GroupEnd(mem, BodyEnd(mem, q, hi, v, depth - 1).value, hi, number, depth)
  {
    hide VarintIn, BodyEnd;
  }

  // ----- The tree of what is read -----

  /** Every body that has an end is the writing of one. */
  lemma {:induction false} BodyOf(mem: seq<byte>, p: nat, hi: nat, tag: nat, depth: int) returns (b: Body)
    requires hi + PADDING <= |mem| && BodyEnd(mem, p, hi, tag, depth).Some?
    ensures var z := BodyEnd(mem, p, hi, tag, depth).value; BodyOk(tag, b, depth) && WriteBody(b) == mem[p..z]
    decreases if hi >= p then hi - p else 0, 1
  {
    hide CodeOk, VarintIn, BytesIn, At;
    var z := BodyEnd(mem, p, hi, tag, depth).value;
    match tag % 8
    case 0 =>
      CodeOf(mem, p, hi, 10);
      b := Coded(mem[p..z]);
    case 2 =>
      SizedOf(mem, p, hi);
      var s := BytesIn(mem, p, hi).value.0;
      b := Sized(mem[p..s], mem[s..z]);
    case 3 =>
      var nodes, end := GroupOf(mem, p, hi, tag / 8, depth);
      b := Group(nodes, end);
    case _ =>
      b := Plain(mem[p..z]);
  }

  lemma {:induction false} GroupOf(mem: seq<byte>, p: nat, hi: nat, number: nat, depth: int)
    returns (nodes: seq<Node>, end: seq<byte>)
    requires hi + PADDING <= |mem| && GroupEnd(mem, p, hi, number, depth).Some?
    ensures NodesOk(nodes, depth - 1) && CodeOk(end, 10) && Value(end) == number * 8 + 4
    ensures Write(nodes) + end == mem[p..GroupEnd(mem, p, hi, number, depth).value]
    decreases if hi >= p then hi - p else 0, 0
  {
    hide CodeOk, VarintIn, At, BodyEnd, GroupEnd, Write, WriteBody, BodyOk, NodesOk;
    GroupCases(mem, p, hi, number, depth);
    var (v, q) := VarintIn(mem, p, hi, 10).value;
    CodeOf(mem, p, hi, 10);
    if v == number * 8 + 4 {
      nodes, end := [], mem[p..q];
      WriteNone(end, depth - 1);
    } else {
      var b := BodyOf(mem, q, hi, v, depth - 1);
      var z := BodyEnd(mem, q, hi, v, depth - 1).value;
      var rest;
      rest, end := GroupOf(mem, z, hi, number, depth);
      nodes := [Node(mem[p..q], b)] + rest;
      MoreNodes(Node(mem[p..q], b), rest, end, depth - 1);
      Pieces(mem, p, q, z, GroupEnd(mem, p, hi, number, depth).value);
    }
  }

  lemma GroupCases(mem: seq<byte>, p: nat, hi: nat, number: nat, depth: int)
    requires hi + PADDING <= |mem| && GroupEnd(mem, p, hi, number, depth).Some?
    ensures VarintIn(mem, p, hi, 10).Some?
    ensures var (v, q) := VarintIn(mem, p, hi, 10).value;
            && (v == number * 8 + 4 ==> GroupEnd(mem, p, hi, number, depth) == Some(q))
            && (v != number * 8 + 4 ==>
                  8 <= v < 0x1_0000_0000 && BodyEnd(mem, q, hi, v, depth - 1).Some?
                  && GroupEnd(mem, p, hi, number, depth) ==
                     GroupEnd(mem, BodyEnd(mem, q, hi, v, depth - 1).value, hi, number, depth))
  {
    hide VarintIn, BodyEnd;
  }

  lemma WriteNone(end: seq<byte>, depth: int)
    ensures Write([]) + end == end && NodesOk([], depth)
  {
  }

  lemma Pieces(mem: seq<byte>, p: nat, q: nat, z: nat, e: nat)
    requires p <= q <= z <= e <= |mem|
    ensures mem[p..e] == mem[p..q] + (mem[q..z] + mem[z..e])
  {
  }

  lemma MoreNodes(n: Node, rest: seq<Node>, end: seq<byte>, depth: int)
    ensures NodesOk([n] + rest, depth) <==> NodeOk(n, depth) && NodesOk(rest, depth)
    ensures Write([n] + rest) + end == n.tag + (WriteBody(n.body) + (Write(rest) + end))
  {
    assert ([n] + rest)[1..] == rest;
  }
}
