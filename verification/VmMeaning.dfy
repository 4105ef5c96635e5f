/**
 What a message means: the values of its fields are those of its records, and a submessage means what all the records of
 its field hold together. Parsing what is written for a tree leaves messages that mean it.
 */
module VmMeaning {
  import opened Base128
  import opened MapEntry
  import opened Records
  import opened RecordValues
  import opened Values
  import opened VmSpec
  import opened VmTrees
  import opened VmUnknown
  import opened VmValues
  import opened Words
  import opened Wrappers

  // ----- How large a tree is -----

  function Count(nodes: seq<Node>): nat
    decreases nodes
  {
    if nodes == [] then 0 else Count(nodes[..|nodes| - 1]) + NodeCount(nodes[|nodes| - 1])
  }

  function NodeCount(n: Node): nat
    decreases n
  {
    1 + (if n.body.Nested? then Count(n.body.nodes) else 0)
  }

  lemma {:induction false} CountAppend(a: seq<Node>, b: seq<Node>)
    ensures Count(a + b) == Count(a) + Count(b)
    decreases |b|
  {
    hide NodeCount;
    if b == [] {
      assert a + b == a;
    } else {
      assert (a + b)[..|a + b| - 1] == a + b[..|b| - 1];
      CountAppend(a, b[..|b| - 1]);
    }
  }

  // ----- What the records of one message say -----

  /** A record of field parser `field`. */
  datatype Use = Use(field: nat, body: Body)

  /** The record that used a slot for a number or a message last. */
  function LastUser(types: seq<TypeParser>, ty: nat, nodes: seq<Node>, slot: int): (r: Option<Use>)
    ensures r.Some? ==> ty < |types| && r.value.field < |types[ty].fields|
  {
    if nodes == [] then None
    else
      var n := nodes[|nodes| - 1];
      match FieldOf(types, ty, Value(n.tag))
      case None => LastUser(types, ty, nodes[..|nodes| - 1], slot)
      case Some(i) =>
        if Uses(types[ty].fields[i].thunk, slot) then Some(Use(i, n.body))
        else LastUser(types, ty, nodes[..|nodes| - 1], slot)
  }

  /** The records of all submessages in a slot, of the field that used it last, since another field did. */
  function Children(types: seq<TypeParser>, ty: nat, nodes: seq<Node>, slot: int): (r: seq<Node>)
    ensures var u := LastUser(types, ty, nodes, slot);
            Count(r) + (if u.Some? && types[ty].fields[u.value.field].thunk.Message? then 1 else 0) <= Count(nodes)
  {
    if nodes == [] then []
    else
      var n, before := nodes[|nodes| - 1], nodes[..|nodes| - 1];
      match FieldOf(types, ty, Value(n.tag))
      case None => Children(types, ty, before, slot)
      case Some(i) =>
        var t := types[ty].fields[i].thunk;
        if !Uses(t, slot) then Children(types, ty, before, slot)
        else if !t.Message? || !n.body.Nested? then []
        else
          var u := LastUser(types, ty, before, slot);
          if u.Some? && u.value.field == i then
            CountAppend(Children(types, ty, before, slot), n.body.nodes);
            Children(types, ty, before, slot) + n.body.nodes
          else n.body.nodes
  }

  predicate ListsIn(t: Thunk, slot: int) {
    (t.Append? || t.Packed? || t.Messages?) && t.slot == slot
  }

  /** The elements of the list in a slot. */
  function ListUses(types: seq<TypeParser>, ty: nat, nodes: seq<Node>, slot: int): (r: seq<Use>)
    ensures r != [] ==> ty < |types|
    ensures ty < |types| ==> forall k :: 0 <= k < |r| ==> r[k].field < |types[ty].fields|
  {
    if nodes == [] then []
    else
      var n, before := nodes[|nodes| - 1], ListUses(types, ty, nodes[..|nodes| - 1], slot);
      match FieldOf(types, ty, Value(n.tag))
      case None => before
      case Some(i) =>
        if ListsIn(types[ty].fields[i].thunk, slot) then before + UsesOf(i, Elements(types[ty].fields[i].thunk, n.body))
        else before
  }

  /** The messages among them are smaller than their parent. */
  lemma {:induction false} UsesLess(types: seq<TypeParser>, ty: nat, nodes: seq<Node>, slot: int, k: nat)
    requires k < |ListUses(types, ty, nodes, slot)| && ListUses(types, ty, nodes, slot)[k].body.Nested?
    ensures Count(ListUses(types, ty, nodes, slot)[k].body.nodes) < Count(nodes)
  {
    hide FieldOf, Value;
    var rest, n := nodes[..|nodes| - 1], nodes[|nodes| - 1];
    if k < |ListUses(types, ty, rest, slot)| {
      UsesLess(types, ty, rest, slot, k);
    } else {
      assert ListUses(types, ty, nodes, slot)[k].body == n.body;
    }
  }

  function UsesOf(i: nat, bodies: seq<Body>): (r: seq<Use>)
    ensures |r| == |bodies| && forall k :: 0 <= k < |r| ==> r[k] == Use(i, bodies[k])
  {
    seq(|bodies|, k requires 0 <= k < |bodies| => Use(i, bodies[k]))
  }

  /** A record of an entry of the map in a slot with that key. */
  predicate EntryFor(types: seq<TypeParser>, ty: nat, n: Node, slot: int, key: Key) {
    match FieldOf(types, ty, Value(n.tag))
    case None => false
    case Some(i) =>
      var t := types[ty].fields[i].thunk;
      t.MapOf? && t.slot == slot && n.body.Nested? && EntryKey(t.key, n.body.nodes) == key
  }

  /** The last of them. */
  function LastEntry(types: seq<TypeParser>, ty: nat, nodes: seq<Node>, slot: int, key: Key): (r: Option<Use>)
    ensures r.Some? ==>
              ty < |types| && r.value.field < |types[ty].fields| && types[ty].fields[r.value.field].thunk.MapOf?
              && r.value.body.Nested?
  {
    if nodes == [] then None
    else
      var n := nodes[|nodes| - 1];
      if EntryFor(types, ty, n, slot, key) then Some(Use(FieldOf(types, ty, Value(n.tag)).value, n.body))
      else LastEntry(types, ty, nodes[..|nodes| - 1], slot, key)
  }

  /** What a record makes of a bit, if it sets or clears it. */
  function BitIn(types: seq<TypeParser>, ty: nat, n: Node, bit: nat): Option<bool> {
    match FieldOf(types, ty, Value(n.tag))
    case None => None
    case Some(i) =>
      match types[ty].fields[i].thunk
      case Store(_, _, presence) => if presence == Some(bit) then Some(true) else None
      case Flag(at, presence) =>
        if at == bit then Some(Num(Bool, n.body) != 0) else if presence == Some(bit) then Some(true) else None
      case _ => None
  }

  /** A bit is as the last record left it that sets or clears it. */
  predicate BitAfter(types: seq<TypeParser>, ty: nat, nodes: seq<Node>, bit: nat) {
    if nodes == [] then false
    else
      match BitIn(types, ty, nodes[|nodes| - 1], bit)
      case None => BitAfter(types, ty, nodes[..|nodes| - 1], bit)
      case Some(flag) => flag
  }

  /** The unknown records, as they are written. */
  function Strangers(types: seq<TypeParser>, ty: nat, nodes: seq<Node>): seq<byte> {
    if nodes == [] then []
    else
      var n, before := nodes[|nodes| - 1], Strangers(types, ty, nodes[..|nodes| - 1]);
      if FieldOf(types, ty, Value(n.tag)).None? then before + WriteNode(n) else before
  }

  // ----- What one message holds -----

  /**
   A slot that was not used is zero; the which-word of one that was names the field; a number is that of its last
   record.
   */
  predicate SlotMeans(env: Env, out: Out, m: nat, ty: nat, nodes: seq<Node>, slot: int) {
    var key := (m, slot);
    match LastUser(env.types, ty, nodes, slot)
    case None => key !in out.which && CellAt(out, key) == ZERO
    case Some(u) =>
      && key in out.which && out.which[key] == u.field
      && var t := env.types[ty].fields[u.field].thunk;
         t.Store? ==> Stands(env.mem, t.kind, LoadNumber(CellAt(out, key), WidthOf(t.kind)), u.body)
  }

  /** A word of a list, unless it is the address of a message, stands for its element. */
  predicate UseStands(env: Env, ty: nat, word: nat, u: Use)
    requires ty < |env.types| && u.field < |env.types[ty].fields|
  {
    var t := env.types[ty].fields[u.field].thunk;
    t.Append? || t.Packed? ==> Stands(env.mem, t.item, word, u.body)
  }

  /** A list has an element for each that was written, and numbers and ranges are the ones that were written. */
  predicate ListMeans(env: Env, out: Out, m: nat, ty: nat, nodes: seq<Node>, slot: int) {
    var words, uses := ListAt(out, (m, slot)), ListUses(env.types, ty, nodes, slot);
    && |words| == |uses|
    && forall k :: 0 <= k < |uses| ==> UseStands(env, ty, words[k], uses[k])
  }

  /** A map has the keys that were written, each with its last value. */
  predicate MapMeans(env: Env, out: Out, m: nat, ty: nat, nodes: seq<Node>, slot: int, key: Key) {
    var entries := MapAt(out, (m, slot));
    match LastEntry(env.types, ty, nodes, slot, key)
    case None => key !in entries
    case Some(u) =>
      key in entries && LastStands(env.mem, env.types[ty].fields[u.field].thunk.value, 2, entries[key], 0, u.body.nodes)
  }

  predicate BitMeans(env: Env, out: Out, m: nat, ty: nat, nodes: seq<Node>, bit: nat) {
    (m, bit) in out.bits <==> BitAfter(env.types, ty, nodes, bit)
  }

  /** The bytes of unknown records are kept, unless they are to be discarded. */
  predicate StrangersMean(env: Env, out: Out, m: nat, ty: nat, nodes: seq<Node>) {
    UnknownBytes(env.mem, out.events, m) ==
    if env.discardUnknown || (ty < |env.types| && env.types[ty].discardUnknown) then []
      else Strangers(env.types, ty, nodes)
  }

  /** All but the submessages. */
  ghost predicate Local(env: Env, out: Out, m: nat, ty: nat, nodes: seq<Node>) {
    && (forall slot :: SlotMeans(env, out, m, ty, nodes, slot))
    && (forall slot :: ListMeans(env, out, m, ty, nodes, slot))
    && (forall slot, key :: MapMeans(env, out, m, ty, nodes, slot, key))
    && (forall bit: nat :: BitMeans(env, out, m, ty, nodes, bit))
    && StrangersMean(env, out, m, ty, nodes)
  }

  /** The field of a slot that was last used for a message. */
  function MessageIn(types: seq<TypeParser>, ty: nat, nodes: seq<Node>, slot: int): (r: Option<nat>)
    ensures r.Some? ==> Count(Children(types, ty, nodes, slot)) < Count(nodes)
  {
    var u := LastUser(types, ty, nodes, slot);
    if u.Some? && types[ty].fields[u.value.field].thunk.Message? then Some(types[ty].fields[u.value.field].thunk.ty)
      else None
  }

  /** Element k of the list in a slot, if it is a message: its type and its records. */
  function MessageAt(types: seq<TypeParser>, ty: nat, nodes: seq<Node>, slot: int,
                     k: nat): (r: Option<(nat, seq<Node>)>)
    ensures r.Some? ==> Count(r.value.1) < Count(nodes)
  {
    var uses := ListUses(types, ty, nodes, slot);
    if k >= |uses| then None
    else
      var u := uses[k];
      var t := types[ty].fields[u.field].thunk;
      if t.Messages? && u.body.Nested? then
        UsesLess(types, ty, nodes, slot, k);
        Some((t.ty, u.body.nodes))
      else None
  }

  /** Where a message was put: it is the one that is parsed, or in a slot, or an element of a list. */
  datatype Owner = Root | InSlot(msg: nat, slot: int) | InList(msg: nat, slot: int, index: nat)

  /**
   Message m was put there, is of type ty and means what the records say: its values are theirs, and the message a slot
   leads to means what all its records say together, as the messages of a list do each for its own. No message is in two
   places.
   */
  ghost predicate Means(env: Env, out: Out, owner: seq<Owner>, m: nat, at: Owner, ty: nat, nodes: seq<Node>)
    decreases Count(nodes)
  {
    && m < |out.kinds| == |owner| && out.kinds[m] == ty && owner[m] == at && Local(env, out, m, ty, nodes)
    && (forall slot :: MessageIn(env.types, ty, nodes, slot).Some? ==>
          && LoadPointer(CellAt(out, (m, slot))).To?
          && Means(env, out, owner, LoadPointer(CellAt(out, (m, slot))).msg, InSlot(m, slot),
                   MessageIn(env.types, ty, nodes, slot).value, Children(env.types, ty, nodes, slot)))
    && (forall slot, k: nat :: MessageAt(env.types, ty, nodes, slot, k).Some? ==>
          && k < |ListAt(out, (m, slot))|
          && Means(env, out, owner, ListAt(out, (m, slot))[k], InList(m, slot, k),
                   MessageAt(env.types, ty, nodes, slot, k).value.0, MessageAt(env.types, ty, nodes, slot, k).value.1))
  }

  /** Message 0 means the tree that starts the input, and the parse took a step for each of its records. */
  ghost predicate Meant(env: Env, out: Out, ty: nat, nodes: seq<Node>) {
    StepsOf(out.events) == Steps(env, ty, 0, nodes) && exists owner :: Means(env, out, owner, 0, Root, ty, nodes)
  }

  // ----- One more record -----

  lemma UserMore(types: seq<TypeParser>, ty: nat, nodes: seq<Node>, n: Node, slot: int)
    ensures LastUser(types, ty, nodes + [n], slot) ==
            match FieldOf(types, ty, Value(n.tag))
            case None => LastUser(types, ty, nodes, slot)
            case Some(i) => if Uses(types[ty].fields[i].thunk, slot) then Some(Use(i, n.body))
              else LastUser(types, ty, nodes, slot)
  {
    hide Value, FieldOf, Uses;
    assert (nodes + [n])[..|nodes|] == nodes;
  }

  lemma ChildrenMore(types: seq<TypeParser>, ty: nat, nodes: seq<Node>, n: Node, slot: int)
    ensures Children(types, ty, nodes + [n], slot) ==
            match FieldOf(types, ty, Value(n.tag))
            case None => Children(types, ty, nodes, slot)
            case Some(i) =>
              var t := types[ty].fields[i].thunk;
              if !Uses(t, slot) then Children(types, ty, nodes, slot)
              else if !t.Message? || !n.body.Nested? then []
              else
                var u := LastUser(types, ty, nodes, slot);
                if u.Some? && u.value.field == i then Children(types, ty, nodes, slot) + n.body.nodes else n.body.nodes
  {
    hide Value, FieldOf, Uses, LastUser, Count, NodeCount;
    assert (nodes + [n])[..|nodes|] == nodes;
  }

  lemma ListMore(types: seq<TypeParser>, ty: nat, nodes: seq<Node>, n: Node, slot: int)
    ensures ListUses(types, ty, nodes + [n], slot) ==
            match FieldOf(types, ty, Value(n.tag))
            case None => ListUses(types, ty, nodes, slot)
            case Some(i) =>
              var t := types[ty].fields[i].thunk;
              if ListsIn(t, slot) then ListUses(types, ty, nodes, slot) + UsesOf(i, Elements(t, n.body))
              else ListUses(types, ty, nodes, slot)
  {
    hide Value, FieldOf, ListsIn, UsesOf, Elements, Count, NodeCount;
    assert (nodes + [n])[..|nodes|] == nodes;
  }

  lemma LastEntryMore(types: seq<TypeParser>, ty: nat, nodes: seq<Node>, n: Node, slot: int, key: Key)
    ensures LastEntry(types, ty, nodes + [n], slot, key) ==
            if EntryFor(types, ty, n, slot, key) then Some(Use(FieldOf(types, ty, Value(n.tag)).value, n.body))
            else LastEntry(types, ty, nodes, slot, key)
  {
    hide Value, EntryKey;
    assert (nodes + [n])[..|nodes|] == nodes;
  }

  lemma BitMore(types: seq<TypeParser>, ty: nat, nodes: seq<Node>, n: Node, bit: nat)
    ensures BitAfter(types, ty, nodes + [n], bit) ==
            match BitIn(types, ty, n, bit) case None => BitAfter(types, ty, nodes, bit) case Some(flag) => flag
  {
    hide BitIn;
    assert (nodes + [n])[..|nodes|] == nodes;
  }

  lemma StrangersMore(types: seq<TypeParser>, ty: nat, nodes: seq<Node>, n: Node)
    ensures Strangers(types, ty, nodes + [n]) ==
            Strangers(types, ty, nodes) + if FieldOf(types, ty, Value(n.tag)).None? then WriteNode(n) else []
  {
    hide Value, FieldOf, WriteNode;
    assert (nodes + [n])[..|nodes|] == nodes;
  }

  /** The message in a slot after one more record. */
  lemma MessageInMore(types: seq<TypeParser>, ty: nat, nodes: seq<Node>, n: Node, slot: int)
    ensures var f := FieldOf(types, ty, Value(n.tag));
            var more := nodes + [n];
            if f.None? || !Uses(types[ty].fields[f.value].thunk, slot) then
              && MessageIn(types, ty, more, slot) == MessageIn(types, ty, nodes, slot)
              && Children(types, ty, more, slot) == Children(types, ty, nodes, slot)
            else if types[ty].fields[f.value].thunk.Store? then MessageIn(types, ty, more, slot).None?
            else
              && MessageIn(types, ty, more, slot) == Some(types[ty].fields[f.value].thunk.ty)
              && (n.body.Nested? ==>
                    var u := LastUser(types, ty, nodes, slot);
                    Children(types, ty, more, slot) ==
                    if u.Some? && u.value.field == f.value then Children(types, ty, nodes, slot) + n.body.nodes
                    else n.body.nodes)
  {
    hide Value, FieldOf, LastUser, Children, Count, NodeCount;
    UserMore(types, ty, nodes, n, slot);
    ChildrenMore(types, ty, nodes, n, slot);
  }

  /** The messages of a list after one more record. */
  lemma MessageAtMore(types: seq<TypeParser>, ty: nat, nodes: seq<Node>, n: Node, slot: int, k: nat)
    ensures var f := FieldOf(types, ty, Value(n.tag));
            var more, len := nodes + [n], |ListUses(types, ty, nodes, slot)|;
            if k < len then MessageAt(types, ty, more, slot, k) == MessageAt(types, ty, nodes, slot, k)
            else if f.Some? && types[ty].fields[f.value].thunk.Messages?
              && types[ty].fields[f.value].thunk.slot == slot then
              n.body.Nested? ==>
                MessageAt(types, ty, more, slot, k) ==
                if k == len then Some((types[ty].fields[f.value].thunk.ty, n.body.nodes)) else None
            else MessageAt(types, ty, more, slot, k).None?
  {
    hide Value, FieldOf, ListUses, Count, NodeCount;
    ListMore(types, ty, nodes, n, slot);
  }
}
