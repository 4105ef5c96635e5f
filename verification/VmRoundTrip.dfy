/** Parsing what is written for a tree leaves messages that mean it. */
module VmRoundTrip {
  import opened Base128
  import opened MapEntry
  import opened Records
  import opened RecordValues
  import opened Values
  import opened VmMeaning
  import opened VmSpec
  import opened VmTrees
  import opened VmUnknown
  import opened VmValues
  import opened Wire
  import opened Words
  import opened Wrappers

  // ----- While a tree is parsed -----

  /** For every message, the records that were parsed into it, those that are still to come, and where it was put. */
  datatype Trail = Trail(done: seq<seq<Node>>, todo: seq<seq<Node>>, owner: seq<Owner>)

  /** Message s was put there after message m, is of that type and will have had those records. */
  ghost predicate Linked(out: Out, w: Trail, m: nat, s: nat, at: Owner, ty: nat, nodes: seq<Node>) {
    && m < s < |out.kinds| == |w.done| == |w.todo| == |w.owner|
    && out.kinds[s] == ty && w.owner[s] == at && w.done[s] + w.todo[s] == nodes
  }

  ghost predicate SlotLinked(env: Env, out: Out, w: Trail, m: nat, slot: int)
    requires m < |out.kinds| == |w.done|
  {
    var ty, nodes := out.kinds[m], w.done[m];
    MessageIn(env.types, ty, nodes, slot).Some? ==>
      var c := CellAt(out, (m, slot));
      && c.under.Some? && c == Address(c.under.value)
      && Linked(out, w, m, c.under.value, InSlot(m, slot), MessageIn(env.types, ty, nodes, slot).value,
                Children(env.types, ty, nodes, slot))
  }

  ghost predicate ListLinked(env: Env, out: Out, w: Trail, m: nat, slot: int, k: nat)
    requires m < |out.kinds| == |w.done|
  {
    var ty, nodes := out.kinds[m], w.done[m];
    MessageAt(env.types, ty, nodes, slot, k).Some? ==>
      && k < |ListAt(out, (m, slot))|
      && Linked(out, w, m, ListAt(out, (m, slot))[k], InList(m, slot, k),
                MessageAt(env.types, ty, nodes, slot, k).value.0,
                MessageAt(env.types, ty, nodes, slot, k).value.1)
  }

  ghost predicate Along(env: Env, out: Out, w: Trail) {
    && |w.done| == |w.todo| == |w.owner| == |out.kinds| && Bounded(|env.types|, out)
    && (forall m :: 0 <= m < |out.kinds| ==> Local(env, out, m, out.kinds[m], w.done[m]))
    && (forall m, slot :: 0 <= m < |out.kinds| ==> SlotLinked(env, out, w, m, slot))
    && (forall m, slot, k: nat :: 0 <= m < |out.kinds| ==> ListLinked(env, out, w, m, slot, k))
  }

  /** Before the parse. */
  lemma StartAlong(env: Env, ty: nat, nodes: seq<Node>)
    requires ty < |env.types|
    ensures Along(env, Start(ty), Trail([[]], [nodes], [Root]))
  {
  }

  /** When nothing is left to come, every message means its records. */
  lemma {:induction false} AlongMeans(env: Env, out: Out, w: Trail, m: nat)
    requires Along(env, out, w) && m < |out.kinds| && forall x :: 0 <= x < |w.todo| ==> w.todo[x] == []
    ensures Means(env, out, w.owner, m, w.owner[m], out.kinds[m], w.done[m])
    decreases |out.kinds| - m
  {
    hide Local, MessageIn, MessageAt, Children, CellAt, ListAt;
    var ty, nodes := out.kinds[m], w.done[m];
    forall slot | MessageIn(env.types, ty, nodes, slot).Some?
      ensures LoadPointer(CellAt(out, (m, slot))).To?
      ensures Means(env, out, w.owner, LoadPointer(CellAt(out, (m, slot))).msg, InSlot(m, slot),
                    MessageIn(env.types, ty, nodes, slot).value, Children(env.types, ty, nodes, slot))
    {
      assert SlotLinked(env, out, w, m, slot);
      var s := CellAt(out, (m, slot)).under.value;
      AlongMeans(env, out, w, s);
      assert w.done[s] + w.todo[s] == w.done[s];
    }
    forall slot, k: nat | MessageAt(env.types, ty, nodes, slot, k).Some?
      ensures k < |ListAt(out, (m, slot))|
      ensures Means(env, out, w.owner, ListAt(out, (m, slot))[k], InList(m, slot, k),
                    MessageAt(env.types, ty, nodes, slot, k).value.0, MessageAt(env.types, ty, nodes, slot, k).value.1)
    {
      assert ListLinked(env, out, w, m, slot, k);
      var s := ListAt(out, (m, slot))[k];
      AlongMeans(env, out, w, s);
      assert w.done[s] + w.todo[s] == w.done[s];
    }
  }

  // ----- What a step leaves as it was -----

  /** Two states agree on message x. */
  ghost predicate SameAt(mem: seq<byte>, out: Out, after: Out, x: nat) {
    && (forall slot: int ::
          && CellAt(after, (x, slot)) == CellAt(out, (x, slot)) && ListAt(after, (x, slot)) == ListAt(out, (x, slot))
          && MapAt(after, (x, slot)) == MapAt(out, (x, slot))
          && ((x, slot) in after.which <==> (x, slot) in out.which)
          && ((x, slot) in out.which ==> after.which[(x, slot)] == out.which[(x, slot)]))
    && (forall bit: nat :: (x, bit) in after.bits <==> (x, bit) in out.bits)
    && UnknownBytes(mem, after.events, x) == UnknownBytes(mem, out.events, x)
  }

  lemma LocalKept(env: Env, out: Out, after: Out, x: nat, ty: nat, nodes: seq<Node>)
    requires Local(env, out, x, ty, nodes) && SameAt(env.mem, out, after, x)
    ensures Local(env, after, x, ty, nodes)
  {
    hide LastUser, ListUses, LastEntry, BitAfter, Strangers, CellAt, ListAt, MapAt, UnknownBytes, LoadNumber, Stands;
    hide LastStands;
    forall slot
      ensures SlotMeans(env, after, x, ty, nodes, slot) && ListMeans(env, after, x, ty, nodes, slot)
    {
      assert SlotMeans(env, out, x, ty, nodes, slot) && ListMeans(env, out, x, ty, nodes, slot);
    }
    forall slot, key
      ensures MapMeans(env, after, x, ty, nodes, slot, key)
    {
      assert MapMeans(env, out, x, ty, nodes, slot, key);
    }
    forall bit: nat
      ensures BitMeans(env, after, x, ty, nodes, bit)
    {
      assert BitMeans(env, out, x, ty, nodes, bit);
    }
  }

  lemma UnknownMore(mem: seq<byte>, events: seq<Event>, e: Event, m: nat)
    ensures UnknownBytes(mem, events + [e], m) ==
            UnknownBytes(mem, events, m)
            + if e.Unknown? && e.msg == m && e.start <= e.end <= |mem| then mem[e.start..e.end] else []
  {
    assert (events + [e])[..|events|] == events;
  }

  lemma {:induction false} NoUnknown(mem: seq<byte>, events: seq<Event>, m: nat)
    requires forall e :: e in events ==> e.msg < m
    ensures UnknownBytes(mem, events, m) == []
  {
    if events != [] {
      NoUnknown(mem, events[..|events| - 1], m);
    }
  }

  /** Nothing is known of a message that is not there yet. */
  lemma NewLocal(env: Env, out: Out, ty: nat)
    requires Bounded(|env.types|, out)
    ensures Local(env, out, |out.kinds|, ty, [])
  {
    NoUnknown(env.mem, out.events, |out.kinds|);
  }

  // ----- An unknown record -----

  lemma {:induction false} UnknownLocal(env: Env, out: Out, ty: nat, msg: nat, at: nat, nodes: seq<Node>, n: Node)
    requires Local(env, out, msg, ty, nodes) && ty < |env.types| && FieldOf(env.types, ty, Value(n.tag)).None?
    requires At(env.mem, at, WriteNode(n))
    ensures Local(env, UnknownOut(env, ty, msg, at, at + |WriteNode(n)|, out), msg, ty, nodes + [n])
  {
    hide LastUser, ListUses, LastEntry, BitAfter, Strangers, UnknownBytes, LoadNumber, Stands, LastStands, WriteNode;
    hide FieldOf, Value;
    var z := at + |WriteNode(n)|;
    var after := UnknownOut(env, ty, msg, at, z, out);
    forall slot
      ensures SlotMeans(env, after, msg, ty, nodes + [n], slot) && ListMeans(env, after, msg, ty, nodes + [n], slot)
    {
      assert SlotMeans(env, out, msg, ty, nodes, slot) && ListMeans(env, out, msg, ty, nodes, slot);
      UserMore(env.types, ty, nodes, n, slot);
      ListMore(env.types, ty, nodes, n, slot);
    }
    forall slot, key
      ensures MapMeans(env, after, msg, ty, nodes + [n], slot, key)
    {
      assert MapMeans(env, out, msg, ty, nodes, slot, key);
      LastEntryMore(env.types, ty, nodes, n, slot, key);
    }
    forall bit: nat
      ensures BitMeans(env, after, msg, ty, nodes + [n], bit)
    {
      assert BitMeans(env, out, msg, ty, nodes, bit);
      BitMore(env.types, ty, nodes, n, bit);
    }
    StrangersMore(env.types, ty, nodes, n);
    UnknownMore(env.mem, out.events, Unknown(msg, at, z), msg);
  }

  // ----- A field that was read -----

  lemma FieldSlotMeans(env: Env, out: Out, msg: nat, ty: nat, i: nat, t: Thunk, p: nat, z: nat, c: Content,
                       nodes: seq<Node>, n: Node, slot: int)
    requires SlotMeans(env, out, msg, ty, nodes, slot) && FieldOf(env.types, ty, Value(n.tag)) == Some(i)
    requires t == env.types[ty].fields[i].thunk && !IsMessage(t) && Fits(t, c) && Conveys(env.mem, t, c, n.body)
    ensures SlotMeans(env, FieldOut(out, msg, i, t, p, z, c), msg, ty, nodes + [n], slot)
  {
    hide LastUser, LoadNumber, StoreNumber, Stands, FieldOf, Value, Stored, Limit, Elements, LastStands;
    UserMore(env.types, ty, nodes, n, slot);
    StoredCells(out, msg, i, t, c);
    if t.Store? && t.slot == slot {
      LoadStored(CellAt(out, (msg, slot)), c.word, WidthOf(t.kind));
    }
  }

  /** Elements that were read stand for those of the record. */
  lemma ItemsStand(mem: seq<byte>, t: Thunk, c: Content, b: Body)
    requires (t.Append? || t.Packed?) && c.Items? && Conveys(mem, t, c, b)
    ensures |c.items| == |Elements(t, b)|
    ensures forall k :: 0 <= k < |c.items| ==> Stands(mem, t.item, c.items[k], Elements(t, b)[k])
  {
    hide Stands, Elements;
  }

  /** A list of elements that stand for theirs, and more of them. */
  lemma StandMore(env: Env, ty: nat, uses: seq<Use>, words: seq<nat>, i: nat, bodies: seq<Body>, items: seq<nat>)
    requires ty < |env.types| && i < |env.types[ty].fields| && |words| == |uses| && |items| == |bodies|
    requires forall k :: 0 <= k < |uses| ==> uses[k].field < |env.types[ty].fields|
    requires forall k :: 0 <= k < |uses| ==> UseStands(env, ty, words[k], uses[k])
    requires forall k :: 0 <= k < |items| ==> UseStands(env, ty, items[k], Use(i, bodies[k]))
    ensures var more := uses + UsesOf(i, bodies);
            && |words + items| == |more|
            && forall k :: 0 <= k < |more| ==>
               more[k].field < |env.types[ty].fields| && UseStands(env, ty, (words + items)[k], more[k])
  {
    hide UseStands;
  }

  lemma FieldListMeans(env: Env, out: Out, msg: nat, ty: nat, i: nat, t: Thunk, p: nat, z: nat, c: Content,
                       nodes: seq<Node>, n: Node, slot: int)
    requires ListMeans(env, out, msg, ty, nodes, slot) && FieldOf(env.types, ty, Value(n.tag)) == Some(i)
    requires t == env.types[ty].fields[i].thunk && !IsMessage(t) && Fits(t, c) && Conveys(env.mem, t, c, n.body)
    ensures ListMeans(env, FieldOut(out, msg, i, t, p, z, c), msg, ty, nodes + [n], slot)
  {
    hide ListUses, Stands, FieldOf, Value, Stored, Limit, Elements, Conveys, UsesOf;
    ListMore(env.types, ty, nodes, n, slot);
    StoredLists(out, msg, i, t, c);
    if ListsIn(t, slot) {
      ItemsStand(env.mem, t, c, n.body);
      StandMore(env, ty, ListUses(env.types, ty, nodes, slot), ListAt(out, (msg, slot)), i, Elements(t, n.body),
        c.items);
    }
  }

  lemma FieldMapMeans(env: Env, out: Out, msg: nat, ty: nat, i: nat, t: Thunk, p: nat, z: nat, c: Content,
                      nodes: seq<Node>, n: Node, slot: int, key: Key)
    requires MapMeans(env, out, msg, ty, nodes, slot, key) && FieldOf(env.types, ty, Value(n.tag)) == Some(i)
    requires t == env.types[ty].fields[i].thunk && !IsMessage(t) && Fits(t, c) && Conveys(env.mem, t, c, n.body)
    ensures MapMeans(env, FieldOut(out, msg, i, t, p, z, c), msg, ty, nodes + [n], slot, key)
  {
    hide LastEntry, Stands, FieldOf, Value, Stored, Limit, Elements, LastStands, EntryKey;
    LastEntryMore(env.types, ty, nodes, n, slot, key);
    StoredLists(out, msg, i, t, c);
  }

  lemma FieldBitMeans(env: Env, out: Out, msg: nat, ty: nat, i: nat, t: Thunk, p: nat, z: nat, c: Content,
                      nodes: seq<Node>, n: Node, bit: nat)
    requires BitMeans(env, out, msg, ty, nodes, bit) && FieldOf(env.types, ty, Value(n.tag)) == Some(i)
    requires t == env.types[ty].fields[i].thunk && !IsMessage(t) && Fits(t, c) && Conveys(env.mem, t, c, n.body)
    ensures BitMeans(env, FieldOut(out, msg, i, t, p, z, c), msg, ty, nodes + [n], bit)
  {
    hide BitAfter, Stands, FieldOf, Value, Stored, Limit, Elements, LastStands, Num;
    BitMore(env.types, ty, nodes, n, bit);
    StoredBits(out, msg, i, t, c);
  }

  lemma FieldLocal(env: Env, out: Out, msg: nat, ty: nat, i: nat, t: Thunk, p: nat, z: nat, c: Content,
                   nodes: seq<Node>, n: Node)
    requires Local(env, out, msg, ty, nodes) && FieldOf(env.types, ty, Value(n.tag)) == Some(i)
    requires t == env.types[ty].fields[i].thunk && !IsMessage(t) && Fits(t, c) && Conveys(env.mem, t, c, n.body)
    ensures Local(env, FieldOut(out, msg, i, t, p, z, c), msg, ty, nodes + [n])
  {
    hide SlotMeans, ListMeans, MapMeans, BitMeans, Fits, Conveys, FieldOf, Value, Strangers, UnknownBytes, Stored;
    forall slot
      ensures SlotMeans(env, FieldOut(out, msg, i, t, p, z, c), msg, ty, nodes + [n], slot)
      ensures ListMeans(env, FieldOut(out, msg, i, t, p, z, c), msg, ty, nodes + [n], slot)
    {
      FieldSlotMeans(env, out, msg, ty, i, t, p, z, c, nodes, n, slot);
      FieldListMeans(env, out, msg, ty, i, t, p, z, c, nodes, n, slot);
    }
    forall slot, key
      ensures MapMeans(env, FieldOut(out, msg, i, t, p, z, c), msg, ty, nodes + [n], slot, key)
    {
      FieldMapMeans(env, out, msg, ty, i, t, p, z, c, nodes, n, slot, key);
    }
    forall bit: nat
      ensures BitMeans(env, FieldOut(out, msg, i, t, p, z, c), msg, ty, nodes + [n], bit)
    {
      FieldBitMeans(env, out, msg, ty, i, t, p, z, c, nodes, n, bit);
    }
    StrangersMore(env.types, ty, nodes, n);
    StoredCells(out, msg, i, t, c);
    UnknownMore(env.mem, out.events, Known(msg, i, p, z, c), msg);
  }

  /** A field of message msg that was read leaves the other messages as they were. */
  lemma FieldSame(mem: seq<byte>, out: Out, msg: nat, i: nat, t: Thunk, p: nat, z: nat, c: Content, x: nat)
    requires x != msg && Fits(t, c)
    ensures SameAt(mem, out, FieldOut(out, msg, i, t, p, z, c), x)
  {
    hide Stored, StoreNumber, Limit, UnknownBytes;
    StoredCells(out, msg, i, t, c);
    StoredLists(out, msg, i, t, c);
    StoredBits(out, msg, i, t, c);
    UnknownMore(mem, out.events, Known(msg, i, p, z, c), x);
  }

  lemma UnknownSame(env: Env, out: Out, ty: nat, msg: nat, at: nat, z: nat, x: nat)
    requires x != msg && ty < |env.types|
    ensures SameAt(env.mem, out, UnknownOut(env, ty, msg, at, z, out), x)
  {
    hide UnknownBytes;
    UnknownMore(env.mem, out.events, Unknown(msg, at, z), x);
  }

  // ----- A message that is entered -----

  /** The message field used its slot last. */
  predicate Mine(out: Out, msg: nat, i: nat, t: Thunk) {
    t.Message? && (msg, t.slot) in out.which && out.which[(msg, t.slot)] == i
  }

  /** A message that was there before. */
  lemma EnterMine(types: nat, out: Out, msg: nat, i: nat, t: Thunk, start: nat, end: nat, s: nat)
    requires IsMessage(t) && t.ty < types && Mine(out, msg, i, t)
    requires CellAt(out, (msg, t.slot)) == Address(s) && IsAddress(types, out, s)
    ensures EnterSub(types, true, out, msg, i, t, start, end) == Into(Emit(out, Enter(msg, i, s, start, end)), s, t.ty)
  {
    assert out.which[(msg, t.slot) := i] == out.which;
  }

  /** A new message. */
  lemma EnterNew(types: nat, out: Out, msg: nat, i: nat, t: Thunk, start: nat, end: nat)
    requires IsMessage(t) && t.ty < types && !Mine(out, msg, i, t)
    ensures var e, s := EnterSub(types, true, out, msg, i, t, start, end), |out.kinds|;
            && e.Into? && e.sub == s && e.ty == t.ty && e.out.kinds == out.kinds + [t.ty]
            && e.out.events == out.events + [Enter(msg, i, s, start, end)] && e.out.maps == out.maps
               && e.out.bits == out.bits
            && e.out.lists == (if t.Messages? then Appended(out, msg, t.slot, [s]) else out).lists
            && e.out.cells == (if t.Message? then out.cells[(msg, t.slot) := Address(s)] else out.cells)
            && e.out.which == (if t.Message? then out.which[(msg, t.slot) := i] else out.which)
  {
    hide LoadPointer;
  }

  lemma NewBounded(types: nat, out: Out, msg: nat, i: nat, t: Thunk, start: nat, end: nat)
    requires IsMessage(t) && t.ty < types && !Mine(out, msg, i, t) && Bounded(types, out) && msg < |out.kinds|
    ensures Bounded(types, EnterSub(types, true, out, msg, i, t, start, end).out)
  {
    hide EnterSub;
    EnterNew(types, out, msg, i, t, start, end);
  }

  lemma NewSame(mem: seq<byte>, types: nat, out: Out, msg: nat, i: nat, t: Thunk, start: nat, end: nat, x: nat)
    requires IsMessage(t) && t.ty < types && !Mine(out, msg, i, t) && x != msg
    ensures SameAt(mem, out, EnterSub(types, true, out, msg, i, t, start, end).out, x)
  {
    hide EnterSub, UnknownBytes;
    EnterNew(types, out, msg, i, t, start, end);
    UnknownMore(mem, out.events, Enter(msg, i, |out.kinds|, start, end), x);
  }

  /** A step that is no unknown record leaves everything but the steps. */
  lemma EmitSame(mem: seq<byte>, out: Out, e: Event, x: nat)
    requires !e.Unknown?
    ensures SameAt(mem, out, Emit(out, e), x)
  {
    hide UnknownBytes;
    UnknownMore(mem, out.events, e, x);
  }

  /** After message field i of message msg was entered, into message s. */
  ghost predicate Entered(mem: seq<byte>, out: Out, after: Out, msg: nat, i: nat, t: Thunk, s: nat) {
    && after.maps == out.maps && after.bits == out.bits
    && after.lists == (if t.Messages? then Appended(out, msg, t.slot, [s]) else out).lists
    && after.which == (if t.Message? then out.which[(msg, t.slot) := i] else out.which)
    && after.cells == (if t.Message? then out.cells[(msg, t.slot) := Address(s)] else out.cells)
    && UnknownBytes(mem, after.events, msg) == UnknownBytes(mem, out.events, msg)
  }

  lemma NewEntered(mem: seq<byte>, types: nat, out: Out, msg: nat, i: nat, t: Thunk, start: nat, end: nat)
    requires IsMessage(t) && t.ty < types && !Mine(out, msg, i, t)
    ensures Entered(mem, out, EnterSub(types, true, out, msg, i, t, start, end).out, msg, i, t, |out.kinds|)
  {
    hide EnterSub, UnknownBytes;
    EnterNew(types, out, msg, i, t, start, end);
    UnknownMore(mem, out.events, Enter(msg, i, |out.kinds|, start, end), msg);
  }

  lemma MineEntered(mem: seq<byte>, out: Out, msg: nat, i: nat, t: Thunk, start: nat, end: nat, s: nat)
    requires Mine(out, msg, i, t) && CellAt(out, (msg, t.slot)) == Address(s)
    ensures Entered(mem, out, Emit(out, Enter(msg, i, s, start, end)), msg, i, t, s)
  {
    hide UnknownBytes;
    UnknownMore(mem, out.events, Enter(msg, i, s, start, end), msg);
    assert out.which[(msg, t.slot) := i] == out.which && out.cells[(msg, t.slot) := Address(s)] == out.cells;
  }

  lemma EnteredSlots(env: Env, out: Out, after: Out, msg: nat, ty: nat, i: nat, t: Thunk, s: nat, nodes: seq<Node>,
                     n: Node, slot: int)
    requires SlotMeans(env, out, msg, ty, nodes, slot) && Entered(env.mem, out, after, msg, i, t, s)
    requires FieldOf(env.types, ty, Value(n.tag)) == Some(i) && t == env.types[ty].fields[i].thunk && IsMessage(t)
    ensures SlotMeans(env, after, msg, ty, nodes + [n], slot)
  {
    hide LastUser, LoadNumber, Stands, FieldOf, Value, UnknownBytes;
    UserMore(env.types, ty, nodes, n, slot);
  }

  lemma EnteredLists(env: Env, out: Out, after: Out, msg: nat, ty: nat, i: nat, t: Thunk, s: nat, nodes: seq<Node>,
                     n: Node, slot: int)
    requires ListMeans(env, out, msg, ty, nodes, slot) && Entered(env.mem, out, after, msg, i, t, s)
    requires FieldOf(env.types, ty, Value(n.tag)) == Some(i) && t == env.types[ty].fields[i].thunk && IsMessage(t)
    ensures ListMeans(env, after, msg, ty, nodes + [n], slot)
  {
    hide ListUses, Stands, FieldOf, Value, UsesOf, UnknownBytes;
    ListMore(env.types, ty, nodes, n, slot);
    if ListsIn(t, slot) {
      StandMore(env, ty, ListUses(env.types, ty, nodes, slot), ListAt(out, (msg, slot)), i, Elements(t, n.body), [s]);
    }
  }

  lemma EnteredLocal(env: Env, out: Out, after: Out, msg: nat, ty: nat, i: nat, t: Thunk, s: nat, nodes: seq<Node>,
                     n: Node)
    requires Local(env, out, msg, ty, nodes) && Entered(env.mem, out, after, msg, i, t, s)
    requires FieldOf(env.types, ty, Value(n.tag)) == Some(i) && t == env.types[ty].fields[i].thunk && IsMessage(t)
    ensures Local(env, after, msg, ty, nodes + [n])
  {
    hide SlotMeans, ListMeans, FieldOf, Value, Strangers, UnknownBytes, LastEntry, LastStands, BitAfter, EntryKey;
    forall slot
      ensures SlotMeans(env, after, msg, ty, nodes + [n], slot) && ListMeans(env, after, msg, ty, nodes + [n], slot)
    {
      EnteredSlots(env, out, after, msg, ty, i, t, s, nodes, n, slot);
      EnteredLists(env, out, after, msg, ty, i, t, s, nodes, n, slot);
    }
    forall slot, key
      ensures MapMeans(env, after, msg, ty, nodes + [n], slot, key)
    {
      assert MapMeans(env, out, msg, ty, nodes, slot, key);
      LastEntryMore(env.types, ty, nodes, n, slot, key);
    }
    forall bit: nat
      ensures BitMeans(env, after, msg, ty, nodes + [n], bit)
    {
      assert BitMeans(env, out, msg, ty, nodes, bit);
      BitMore(env.types, ty, nodes, n, bit);
    }
    StrangersMore(env.types, ty, nodes, n);
  }

  // ----- Links -----

  /** The first of the records that are to come into message msg is done. */
  function Shift(w: Trail, msg: nat): Trail
    requires msg < |w.done| == |w.todo| && w.todo[msg] != []
  {
    w.(done := w.done[msg := w.done[msg] + [w.todo[msg][0]]], todo := w.todo[msg := w.todo[msg][1..]])
  }

  /** Messages keep their types and where they were put, and, but for message s, what they will have had. */
  ghost predicate Follows(out: Out, w: Trail, after: Out, w2: Trail, s: nat) {
    && |w.done| == |w.todo| == |w.owner| == |out.kinds| && |w2.done| == |w2.todo| == |w2.owner| == |after.kinds|
    && out.kinds <= after.kinds && w.owner <= w2.owner
    && forall x :: 0 <= x < |out.kinds| && x != s ==> w2.done[x] + w2.todo[x] == w.done[x] + w.todo[x]
  }

  lemma SlotFollows(env: Env, out: Out, w: Trail, after: Out, w2: Trail, s: nat, m: nat, slot: int)
    requires Follows(out, w, after, w2, s) && m < |out.kinds| && SlotLinked(env, out, w, m, slot)
    requires MessageIn(env.types, out.kinds[m], w2.done[m], slot).Some? ==>
             && MessageIn(env.types, out.kinds[m], w2.done[m], slot) ==
                MessageIn(env.types, out.kinds[m], w.done[m], slot)
             && Children(env.types, out.kinds[m], w2.done[m], slot) ==
                Children(env.types, out.kinds[m], w.done[m], slot)
             && CellAt(after, (m, slot)) == CellAt(out, (m, slot)) && CellAt(out, (m, slot)).under != Some(s)
    ensures SlotLinked(env, after, w2, m, slot)
  {
    hide MessageIn, Children, CellAt;
  }

  lemma ListFollows(env: Env, out: Out, w: Trail, after: Out, w2: Trail, s: nat, m: nat, slot: int, k: nat)
    requires Follows(out, w, after, w2, s) && m < |out.kinds| && ListLinked(env, out, w, m, slot, k)
    requires MessageAt(env.types, out.kinds[m], w2.done[m], slot, k).Some? ==>
             && MessageAt(env.types, out.kinds[m], w2.done[m], slot, k) ==
                MessageAt(env.types, out.kinds[m], w.done[m], slot, k)
             && ListAt(out, (m, slot)) <= ListAt(after, (m, slot))
             && (k < |ListAt(out, (m, slot))| ==> ListAt(out, (m, slot))[k] != s)
    ensures ListLinked(env, after, w2, m, slot, k)
  {
    hide MessageAt, ListAt;
  }

  /** One more record of message msg leads to no other message from a slot. */
  ghost predicate SlotKept(env: Env, out: Out, after: Out, msg: nat, ty: nat, nodes: seq<Node>, n: Node, slot: int) {
    MessageIn(env.types, ty, nodes + [n], slot).Some? ==>
      && MessageIn(env.types, ty, nodes + [n], slot) == MessageIn(env.types, ty, nodes, slot)
      && Children(env.types, ty, nodes + [n], slot) == Children(env.types, ty, nodes, slot)
      && CellAt(after, (msg, slot)) == CellAt(out, (msg, slot))
  }

  /** Nor from place k of a list. */
  ghost predicate ListKept(env: Env, out: Out, after: Out, msg: nat, ty: nat, nodes: seq<Node>, n: Node, slot: int,
                           k: nat) {
    MessageAt(env.types, ty, nodes + [n], slot, k).Some? ==>
      && MessageAt(env.types, ty, nodes + [n], slot, k) == MessageAt(env.types, ty, nodes, slot, k)
      && ListAt(out, (msg, slot)) <= ListAt(after, (msg, slot))
  }

  /** Message s is not there yet, or it is in slot `slot` of message msg. */
  predicate Put(out: Out, w: Trail, s: nat, msg: nat, slot: int)
    requires |w.owner| == |out.kinds|
  {
    s < |out.kinds| ==> w.owner[s] == InSlot(msg, slot)
  }

  /** No other slot and no list leads to it. */
  lemma LinkApart(env: Env, out: Out, w: Trail, s: nat, msg: nat, slot0: int, m: nat, slot: int, k: nat)
    requires |w.owner| == |out.kinds| == |w.done| && Put(out, w, s, msg, slot0) && m < |out.kinds|
    requires SlotLinked(env, out, w, m, slot) && ListLinked(env, out, w, m, slot, k)
    ensures (m != msg || slot != slot0) && MessageIn(env.types, out.kinds[m], w.done[m], slot).Some? ==>
              CellAt(out, (m, slot)).under != Some(s)
    ensures MessageAt(env.types, out.kinds[m], w.done[m], slot, k).Some? && k < |ListAt(out, (m, slot))| ==>
              ListAt(out, (m, slot))[k] != s
  {
    hide MessageIn, MessageAt, Children, CellAt, ListAt;
  }

  /** The links of other messages. */
  lemma OtherLinks(env: Env, out: Out, w: Trail, after: Out, w2: Trail, s: nat, msg: nat, slot0: int, m: nat, slot: int,
                   k: nat)
    requires Follows(out, w, after, w2, s) && Put(out, w, s, msg, slot0) && m < |out.kinds| && m != msg
    requires SlotLinked(env, out, w, m, slot) && ListLinked(env, out, w, m, slot, k)
    requires w2.done[m] == w.done[m] && SameAt(env.mem, out, after, m)
    ensures SlotLinked(env, after, w2, m, slot) && ListLinked(env, after, w2, m, slot, k)
  {
    hide MessageIn, MessageAt, Children, CellAt, ListAt, SlotLinked, ListLinked, UnknownBytes, MapAt, Put, Follows;
    FollowsSizes(out, w, after, w2, s);
    LinkApart(env, out, w, s, msg, slot0, m, slot, k);
    SlotFollows(env, out, w, after, w2, s, m, slot);
    ListFollows(env, out, w, after, w2, s, m, slot, k);
  }

  lemma FollowsSizes(out: Out, w: Trail, after: Out, w2: Trail, s: nat)
    requires Follows(out, w, after, w2, s)
    ensures |w.done| == |w.todo| == |w.owner| == |out.kinds| && |w2.done| == |w2.todo| == |w2.owner| == |after.kinds|
    ensures out.kinds <= after.kinds && w.owner <= w2.owner
  {
  }

  /** The links of the message itself that one more record keeps. */
  lemma OwnSlot(env: Env, out: Out, w: Trail, after: Out, w2: Trail, s: nat, msg: nat, slot0: int, n: Node, slot: int)
    requires Follows(out, w, after, w2, s) && Put(out, w, s, msg, slot0) && msg < |out.kinds|
    requires SlotLinked(env, out, w, msg, slot) && ListLinked(env, out, w, msg, slot, 0)
    requires w2.done[msg] == w.done[msg] + [n] && (slot != slot0 || s >= |out.kinds|)
    requires SlotKept(env, out, after, msg, out.kinds[msg], w.done[msg], n, slot)
    ensures SlotLinked(env, after, w2, msg, slot)
  {
    hide MessageIn, MessageAt, Children, CellAt, ListAt, ListLinked;
  }

  lemma OwnList(env: Env, out: Out, w: Trail, after: Out, w2: Trail, s: nat, msg: nat, slot0: int, n: Node, slot: int,
                k: nat)
    requires Follows(out, w, after, w2, s) && Put(out, w, s, msg, slot0) && msg < |out.kinds|
    requires ListLinked(env, out, w, msg, slot, k)
    requires w2.done[msg] == w.done[msg] + [n]
    requires ListKept(env, out, after, msg, out.kinds[msg], w.done[msg], n, slot, k)
    ensures ListLinked(env, after, w2, msg, slot, k)
  {
    hide MessageIn, MessageAt, Children, CellAt, ListAt;
  }

  // ----- A record that is no message -----

  lemma ShiftFollows(out: Out, w: Trail, after: Out, msg: nat)
    requires |w.done| == |w.todo| == |w.owner| == |out.kinds| && after.kinds == out.kinds
    requires msg < |w.done| && w.todo[msg] != []
    ensures Follows(out, w, after, Shift(w, msg), |out.kinds|)
  {
    var d, t := w.done[msg], w.todo[msg];
    assert d + [t[0]] + t[1..] == d + t;
  }

  /** A record that changes only its own message and leads to no other keeps all in line. */
  lemma PlainAlong(env: Env, out: Out, w: Trail, after: Out, msg: nat)
    requires Along(env, out, w) && msg < |out.kinds| && w.todo[msg] != []
    requires after.kinds == out.kinds && Bounded(|env.types|, after)
    requires Local(env, after, msg, out.kinds[msg], w.done[msg] + [w.todo[msg][0]])
    requires forall x :: 0 <= x < |out.kinds| && x != msg ==> SameAt(env.mem, out, after, x)
    requires forall slot :: SlotKept(env, out, after, msg, out.kinds[msg], w.done[msg], w.todo[msg][0], slot)
    requires forall slot, k: nat :: ListKept(env, out, after, msg, out.kinds[msg], w.done[msg], w.todo[msg][0], slot, k)
    ensures Along(env, after, Shift(w, msg))
  {
    hide Local, SlotLinked, ListLinked, SameAt, SlotKept, ListKept, Bounded;
    var w2, s, n := Shift(w, msg), |out.kinds|, w.todo[msg][0];
    ShiftFollows(out, w, after, msg);
    forall m | 0 <= m < |after.kinds|
      ensures Local(env, after, m, after.kinds[m], w2.done[m])
    {
      if m != msg {
        LocalKept(env, out, after, m, out.kinds[m], w.done[m]);
      }
    }
    forall m, slot | 0 <= m < |after.kinds|
      ensures SlotLinked(env, after, w2, m, slot)
    {
      assert SlotLinked(env, out, w, m, slot) && ListLinked(env, out, w, m, slot, 0);
      if m != msg {
        OtherLinks(env, out, w, after, w2, s, msg, slot, m, slot, 0);
      } else {
        OwnSlot(env, out, w, after, w2, s, msg, slot, n, slot);
      }
    }
    forall m, slot, k: nat | 0 <= m < |after.kinds|
      ensures ListLinked(env, after, w2, m, slot, k)
    {
      assert SlotLinked(env, out, w, m, slot) && ListLinked(env, out, w, m, slot, k);
      if m != msg {
        OtherLinks(env, out, w, after, w2, s, msg, slot, m, slot, k);
      } else {
        OwnList(env, out, w, after, w2, s, msg, slot, n, slot, k);
      }
    }
  }

  lemma UnknownAlong(env: Env, out: Out, w: Trail, at: nat, msg: nat)
    requires Along(env, out, w) && msg < |out.kinds| && w.todo[msg] != [] && out.kinds[msg] < |env.types|
    requires FieldOf(env.types, out.kinds[msg], Value(w.todo[msg][0].tag)).None?
    requires At(env.mem, at, WriteNode(w.todo[msg][0]))
    ensures Along(env, UnknownOut(env, out.kinds[msg], msg, at, at + |WriteNode(w.todo[msg][0])|, out), Shift(w, msg))
  {
    hide Local, SlotLinked, ListLinked, SameAt, MessageIn, MessageAt, Children, FieldOf, Value, WriteNode, ListUses;
    var ty, n, nodes := out.kinds[msg], w.todo[msg][0], w.done[msg];
    var z := at + |WriteNode(n)|;
    var after := UnknownOut(env, ty, msg, at, z, out);
    assert Local(env, out, msg, ty, nodes);
    UnknownLocal(env, out, ty, msg, at, nodes, n);
    forall x | 0 <= x < |out.kinds| && x != msg
      ensures SameAt(env.mem, out, after, x)
    {
      UnknownSame(env, out, ty, msg, at, z, x);
    }
    forall slot
      ensures SlotKept(env, out, after, msg, ty, nodes, n, slot)
    {
      MessageInMore(env.types, ty, nodes, n, slot);
    }
    forall slot, k: nat
      ensures ListKept(env, out, after, msg, ty, nodes, n, slot, k)
    {
      MessageAtMore(env.types, ty, nodes, n, slot, k);
    }
    PlainAlong(env, out, w, after, msg);
  }

  lemma FieldAlong(env: Env, out: Out, w: Trail, msg: nat, i: nat, t: Thunk, p: nat, z: nat, c: Content)
    requires Along(env, out, w) && msg < |out.kinds| && w.todo[msg] != [] && out.kinds[msg] < |env.types|
    requires FieldOf(env.types, out.kinds[msg], Value(w.todo[msg][0].tag)) == Some(i)
    requires t == env.types[out.kinds[msg]].fields[i].thunk && !IsMessage(t) && Fits(t, c)
    requires Conveys(env.mem, t, c, w.todo[msg][0].body)
    ensures Along(env, FieldOut(out, msg, i, t, p, z, c), Shift(w, msg))
  {
    hide Local, SlotLinked, ListLinked, SameAt, MessageIn, MessageAt, Children, FieldOf, Value, Stored, Conveys, Fits;
    hide Bounded;
    hide ListUses;
    var ty, n, nodes := out.kinds[msg], w.todo[msg][0], w.done[msg];
    var after := FieldOut(out, msg, i, t, p, z, c);
    assert Local(env, out, msg, ty, nodes);
    FieldLocal(env, out, msg, ty, i, t, p, z, c, nodes, n);
    FieldBounded(|env.types|, out, msg, i, t, p, z, c);
    forall x | 0 <= x < |out.kinds| && x != msg
      ensures SameAt(env.mem, out, after, x)
    {
      FieldSame(env.mem, out, msg, i, t, p, z, c, x);
    }
    forall slot
      ensures SlotKept(env, out, after, msg, ty, nodes, n, slot)
    {
      MessageInMore(env.types, ty, nodes, n, slot);
      StoredCells(out, msg, i, t, c);
    }
    forall slot, k: nat
      ensures ListKept(env, out, after, msg, ty, nodes, n, slot, k)
    {
      MessageAtMore(env.types, ty, nodes, n, slot, k);
      StoredLists(out, msg, i, t, c);
    }
    PlainAlong(env, out, w, after, msg);
  }

  lemma FieldBounded(types: nat, out: Out, msg: nat, i: nat, t: Thunk, p: nat, z: nat, c: Content)
    requires Bounded(types, out) && msg < |out.kinds|
    ensures Bounded(types, FieldOut(out, msg, i, t, p, z, c)) && FieldOut(out, msg, i, t, p, z, c).kinds == out.kinds
  {
    hide Stored;
    StoredBounded(types, out, msg, i, t, c);
    StoredCells(out, msg, i, t, c);
  }

  // ----- A record that is a message -----

  /** Where the message of a field is put: in its slot, or at the end of its list. */
  function Place(out: Out, msg: nat, t: Thunk): Owner
    requires IsMessage(t)
  {
    if t.Message? then InSlot(msg, t.slot) else InList(msg, t.slot, |ListAt(out, (msg, t.slot))|)
  }

  /** The next record of message msg is done, and its own records are to come into message s. */
  function Entering(w: Trail, msg: nat, s: nat, at: Owner, nodes: seq<Node>): Trail
    requires msg < |w.done| == |w.todo| && w.todo[msg] != []
  {
    var v := Shift(w, msg);
    if s < |w.todo| then v.(todo := v.todo[s := nodes])
    else Trail(v.done + [[]], v.todo + [nodes], v.owner + [at])
  }

  lemma EnteringFollows(out: Out, w: Trail, after: Out, msg: nat, s: nat, at: Owner, nodes: seq<Node>)
    requires |w.done| == |w.todo| == |w.owner| == |out.kinds| && msg < |w.done| && w.todo[msg] != [] && s <= |out.kinds|
    requires out.kinds <= after.kinds && |after.kinds| == (if s < |out.kinds| then |out.kinds| else |out.kinds| + 1)
    ensures Follows(out, w, after, Entering(w, msg, s, at, nodes), s)
  {
    var d, t := w.done[msg], w.todo[msg];
    assert d + [t[0]] + t[1..] == d + t;
  }

  /** Message s, which field i of message msg leads to, and the state after it was entered. */
  ghost predicate EntersTo(env: Env, out: Out, w: Trail, after: Out, msg: nat, i: nat, t: Thunk, s: nat)
    requires |w.todo| == |w.owner| == |out.kinds|
  {
    && msg < s <= |out.kinds| && IsMessage(t) && Put(out, w, s, msg, t.slot)
    && Bounded(|env.types|, after) && Entered(env.mem, out, after, msg, i, t, s)
    && (forall x: nat :: x != msg ==> SameAt(env.mem, out, after, x))
    && (if s < |out.kinds| then t.Message? && after.kinds == out.kinds && out.kinds[s] == t.ty && w.todo[s] == []
        else after.kinds == out.kinds + [t.ty])
  }

  lemma Nothing(nodes: seq<Node>)
    ensures [] + nodes == nodes && nodes + [] == nodes
  {
  }

  /** A message that is entered for the next record, where a slot or a list did not lead to it or did. */
  ghost predicate Enterable(env: Env, out: Out, w: Trail, after: Out, msg: nat, i: nat, t: Thunk, s: nat) {
    && Along(env, out, w) && msg < |out.kinds| && w.todo[msg] != [] && EntersTo(env, out, w, after, msg, i, t, s)
    && FieldOf(env.types, out.kinds[msg], Value(w.todo[msg][0].tag)) == Some(i) && w.todo[msg][0].body.Nested?
    && t == env.types[out.kinds[msg]].fields[i].thunk && (Mine(out, msg, i, t) <==> s < |out.kinds|)
    && (s < |out.kinds| ==> CellAt(out, (msg, t.slot)) == Address(s))
  }

  function Onward(out: Out, w: Trail, msg: nat, t: Thunk, s: nat): Trail
    requires msg < |w.done| == |w.todo| && w.todo[msg] != [] && IsMessage(t) && w.todo[msg][0].body.Nested?
  {
    Entering(w, msg, s, Place(out, msg, t), w.todo[msg][0].body.nodes)
  }

  /** The slot leads to the message that was entered. */
  lemma NewInSlot(env: Env, out: Out, w: Trail, after: Out, msg: nat, i: nat, t: Thunk, s: nat)
    requires Enterable(env, out, w, after, msg, i, t, s) && t.Message?
    ensures var w2 := Onward(out, w, msg, t, s); |w2.done| == |after.kinds| && SlotLinked(env, after, w2, msg, t.slot)
  {
    hide Local, ListLinked, MessageIn, Children, LastUser, SameAt, UnknownBytes, FieldOf, Value, Bounded;
    var ty, n, nodes := out.kinds[msg], w.todo[msg][0], w.done[msg];
    SlotUser(env, out, w, msg, t.slot);
    MessageInMore(env.types, ty, nodes, n, t.slot);
    Nothing(n.body.nodes);
    if s < |out.kinds| {
      Nothing(w.done[s]);
    }
  }

  /** What was last put in a slot of a message. */
  lemma SlotUser(env: Env, out: Out, w: Trail, m: nat, slot: int)
    requires Along(env, out, w) && m < |out.kinds|
    ensures SlotLinked(env, out, w, m, slot)
    ensures var u := LastUser(env.types, out.kinds[m], w.done[m], slot);
            && (u.Some? <==> (m, slot) in out.which) && (u.Some? ==> out.which[(m, slot)] == u.value.field)
            && MessageIn(env.types, out.kinds[m], w.done[m], slot) ==
               if u.Some? && env.types[out.kinds[m]].fields[u.value.field].thunk.Message? then
                 Some(env.types[out.kinds[m]].fields[u.value.field].thunk.ty)
               else None
  {
    hide ListLinked, SlotLinked, Children, LastUser, ListMeans, MapMeans, BitMeans, StrangersMean, Bounded;
    assert Local(env, out, m, out.kinds[m], w.done[m]);
    assert SlotMeans(env, out, m, out.kinds[m], w.done[m], slot);
  }

  /** The list leads to the message that was entered. */
  lemma NewInList(env: Env, out: Out, w: Trail, after: Out, msg: nat, i: nat, t: Thunk, s: nat, k: nat)
    requires Enterable(env, out, w, after, msg, i, t, s) && t.Messages?
    requires k == |ListUses(env.types, out.kinds[msg], w.done[msg], t.slot)|
    ensures var w2 := Onward(out, w, msg, t, s);
            |w2.done| == |after.kinds| && ListLinked(env, after, w2, msg, t.slot, k)
  {
    hide Local, SlotLinked, MessageAt, ListUses, SameAt, UnknownBytes, FieldOf, Value, Bounded;
    var ty, n, nodes := out.kinds[msg], w.todo[msg][0], w.done[msg];
    ListLength(env, out, w, msg, t.slot);
    MessageAtMore(env.types, ty, nodes, n, t.slot, k);
    Nothing(n.body.nodes);
  }

  lemma ListLength(env: Env, out: Out, w: Trail, m: nat, slot: int)
    requires Along(env, out, w) && m < |out.kinds|
    ensures |ListAt(out, (m, slot))| == |ListUses(env.types, out.kinds[m], w.done[m], slot)|
  {
    hide ListLinked, SlotLinked, ListUses, SlotMeans, MapMeans, BitMeans, StrangersMean, Bounded;
    assert Local(env, out, m, out.kinds[m], w.done[m]);
    assert ListMeans(env, out, m, out.kinds[m], w.done[m], slot);
  }

  lemma EnterLocals(env: Env, out: Out, w: Trail, after: Out, msg: nat, i: nat, t: Thunk, s: nat, m: nat)
    requires Enterable(env, out, w, after, msg, i, t, s) && m < |after.kinds|
    ensures var w2 := Onward(out, w, msg, t, s); m < |w2.done| && Local(env, after, m, after.kinds[m], w2.done[m])
  {
    hide Local, SlotLinked, ListLinked, SameAt, FieldOf, Value, Entered, Bounded, Mine;
    if m == msg {
      assert Local(env, out, msg, out.kinds[msg], w.done[msg]);
      EnteredLocal(env, out, after, msg, out.kinds[msg], i, t, s, w.done[msg], w.todo[msg][0]);
    } else if m < |out.kinds| {
      assert Local(env, out, m, out.kinds[m], w.done[m]);
      LocalKept(env, out, after, m, out.kinds[m], w.done[m]);
    } else {
      NewLocal(env, out, t.ty);
      LocalKept(env, out, after, m, t.ty, []);
    }
  }

  /** A message without records leads nowhere. */
  lemma NoLinks(env: Env, out: Out, w: Trail, m: nat, slot: int, k: nat)
    requires m < |out.kinds| == |w.done| && w.done[m] == []
    ensures SlotLinked(env, out, w, m, slot) && ListLinked(env, out, w, m, slot, k)
  {
  }

  lemma EnterSlots(env: Env, out: Out, w: Trail, after: Out, msg: nat, i: nat, t: Thunk, s: nat, m: nat, slot: int)
    requires Enterable(env, out, w, after, msg, i, t, s) && m < |after.kinds|
    ensures var w2 := Onward(out, w, msg, t, s); |w2.done| == |after.kinds| && SlotLinked(env, after, w2, m, slot)
  {
    hide Local, SlotLinked, ListLinked, SameAt, FieldOf, Value, UnknownBytes, Bounded, MessageIn, Children, LastUser;
    var w2, n := Onward(out, w, msg, t, s), w.todo[msg][0];
    EnteringFollows(out, w, after, msg, s, Place(out, msg, t), n.body.nodes);
    if m >= |out.kinds| {
      NoLinks(env, after, w2, m, slot, 0);
    } else {
      assert SlotLinked(env, out, w, m, slot) && ListLinked(env, out, w, m, slot, 0);
      if m != msg {
        OtherLinks(env, out, w, after, w2, s, msg, t.slot, m, slot, 0);
      } else if t.Message? && slot == t.slot {
        NewInSlot(env, out, w, after, msg, i, t, s);
      } else {
        MessageInMore(env.types, out.kinds[msg], w.done[msg], n, slot);
        OwnSlot(env, out, w, after, w2, s, msg, t.slot, n, slot);
      }
    }
  }

  lemma EnterLists(env: Env, out: Out, w: Trail, after: Out, msg: nat, i: nat, t: Thunk, s: nat, m: nat, slot: int,
                   k: nat)
    requires Enterable(env, out, w, after, msg, i, t, s) && m < |after.kinds|
    ensures var w2 := Onward(out, w, msg, t, s); |w2.done| == |after.kinds| && ListLinked(env, after, w2, m, slot, k)
  {
    hide Local, SlotLinked, ListLinked, SameAt, FieldOf, Value, UnknownBytes, Bounded, MessageAt, ListUses;
    var w2, n := Onward(out, w, msg, t, s), w.todo[msg][0];
    EnteringFollows(out, w, after, msg, s, Place(out, msg, t), n.body.nodes);
    if m >= |out.kinds| {
      NoLinks(env, after, w2, m, slot, k);
    } else {
      assert SlotLinked(env, out, w, m, slot) && ListLinked(env, out, w, m, slot, k);
      if m != msg {
        OtherLinks(env, out, w, after, w2, s, msg, t.slot, m, slot, k);
      } else if t.Messages? && slot == t.slot && k == |ListUses(env.types, out.kinds[msg], w.done[msg], slot)| {
        NewInList(env, out, w, after, msg, i, t, s, k);
      } else {
        MessageAtMore(env.types, out.kinds[msg], w.done[msg], n, slot, k);
        OwnList(env, out, w, after, w2, s, msg, t.slot, n, slot, k);
      }
    }
  }

  lemma EnterAlong(env: Env, out: Out, w: Trail, after: Out, msg: nat, i: nat, t: Thunk, s: nat)
    requires Enterable(env, out, w, after, msg, i, t, s)
    ensures Along(env, after, Onward(out, w, msg, t, s))
  {
    hide Local, SlotLinked, ListLinked, Onward;
    var w2 := Onward(out, w, msg, t, s);
    OnwardSizes(env, out, w, after, msg, i, t, s);
    hide Enterable;
    forall m | 0 <= m < |after.kinds|
      ensures Local(env, after, m, after.kinds[m], w2.done[m])
    {
      EnterLocals(env, out, w, after, msg, i, t, s, m);
    }
    forall m, slot | 0 <= m < |after.kinds|
      ensures SlotLinked(env, after, w2, m, slot)
    {
      EnterSlots(env, out, w, after, msg, i, t, s, m, slot);
    }
    forall m, slot, k: nat | 0 <= m < |after.kinds|
      ensures ListLinked(env, after, w2, m, slot, k)
    {
      EnterLists(env, out, w, after, msg, i, t, s, m, slot, k);
    }
  }

  lemma OnwardSizes(env: Env, out: Out, w: Trail, after: Out, msg: nat, i: nat, t: Thunk, s: nat)
    requires Enterable(env, out, w, after, msg, i, t, s)
    ensures var w2 := Onward(out, w, msg, t, s);
            |w2.done| == |w2.todo| == |w2.owner| == |after.kinds| && Bounded(|env.types|, after)
  {
    hide Local, SlotLinked, ListLinked, SameAt, FieldOf, Value, Entered, Bounded, Mine;
  }

  /** No records are to come into messages after msg. */
  predicate Quiet(w: Trail, msg: nat) {
    forall x :: msg < x < |w.todo| ==> w.todo[x] == []
  }

  /** A message field always leads somewhere: to its message, or to a new one. */
  lemma EnterReady(env: Env, out: Out, w: Trail, msg: nat, i: nat, t: Thunk, start: nat, end: nat) returns (s: nat)
    requires Along(env, out, w) && msg < |out.kinds| && w.todo[msg] != [] && Quiet(w, msg)
    requires FieldOf(env.types, out.kinds[msg], Value(w.todo[msg][0].tag)) == Some(i) && w.todo[msg][0].body.Nested?
    requires t == env.types[out.kinds[msg]].fields[i].thunk && IsMessage(t) && t.ty < |env.types|
    ensures var e := EnterSub(|env.types|, true, out, msg, i, t, start, end);
            e.Into? && e.sub == s && Enterable(env, out, w, e.out, msg, i, t, s)
  {
    hide Local, ListLinked, Children, FieldOf, Value, EnterSub, SameAt, UnknownBytes, Entered;
    var after := EnterSub(|env.types|, true, out, msg, i, t, start, end).out;
    s := |out.kinds|;
    if Mine(out, msg, i, t) {
      SlotUser(env, out, w, msg, t.slot);
      s := CellAt(out, (msg, t.slot)).under.value;
      EnterMine(|env.types|, out, msg, i, t, start, end, s);
      MineEntered(env.mem, out, msg, i, t, start, end, s);
    } else {
      EnterNew(|env.types|, out, msg, i, t, start, end);
      NewEntered(env.mem, |env.types|, out, msg, i, t, start, end);
      NewBounded(|env.types|, out, msg, i, t, start, end);
    }
    forall x: nat | x != msg
      ensures SameAt(env.mem, out, after, x)
    {
      if Mine(out, msg, i, t) {
        EmitSame(env.mem, out, Enter(msg, i, s, start, end), x);
      } else {
        NewSame(env.mem, |env.types|, out, msg, i, t, start, end, x);
      }
    }
  }

  // ----- All records -----

  /** The first `count` records to come into message msg are done, and nothing is left to come into later messages. */
  ghost predicate Advanced(out: Out, w: Trail, after: Out, w2: Trail, msg: nat, count: nat) {
    && |w.done| == |w.todo| == |out.kinds| && |w2.done| == |w2.todo| == |after.kinds| && out.kinds <= after.kinds
    && msg < |w.done| && count <= |w.todo[msg]| && Quiet(w2, msg) && w.owner <= w2.owner
    && w2.done[msg] == w.done[msg] + w.todo[msg][..count] && w2.todo[msg] == w.todo[msg][count..]
    && forall x :: 0 <= x < msg ==> w2.done[x] == w.done[x] && w2.todo[x] == w.todo[x]
  }

  lemma ShiftAdvanced(out: Out, w: Trail, after: Out, msg: nat)
    requires |w.done| == |w.todo| == |out.kinds| && after.kinds == out.kinds && msg < |w.done| && w.todo[msg] != []
    requires Quiet(w, msg)
    ensures Advanced(out, w, after, Shift(w, msg), msg, 1)
  {
    assert w.todo[msg][..1] == [w.todo[msg][0]];
  }

  /** After a message was entered and all its records are done. */
  lemma SubAdvanced(env: Env, out: Out, w: Trail, entered: Out, msg: nat, i: nat, t: Thunk, s: nat, after: Out,
                    w2: Trail)
    requires Enterable(env, out, w, entered, msg, i, t, s) && Quiet(w, msg)
    requires Advanced(entered, Onward(out, w, msg, t, s), after, w2, s, |w.todo[msg][0].body.nodes|)
    ensures Advanced(out, w, after, w2, msg, 1)
  {
    hide Along, EntersTo, FieldOf, Value, Mine, Place;
    EntersLater(env, out, w, entered, msg, i, t, s);
    assert w.todo[msg][..1] == [w.todo[msg][0]];
    var nodes := w.todo[msg][0].body.nodes;
    assert nodes[|nodes|..] == [];
  }

  lemma EntersLater(env: Env, out: Out, w: Trail, after: Out, msg: nat, i: nat, t: Thunk, s: nat)
    requires Enterable(env, out, w, after, msg, i, t, s)
    ensures |w.done| == |w.todo| == |w.owner| == |out.kinds| && msg < s <= |out.kinds| && out.kinds <= after.kinds
    ensures s < |after.kinds| && after.kinds[s] == t.ty
    ensures |after.kinds| == (if s < |out.kinds| then |out.kinds| else |out.kinds| + 1)
  {
    hide Local, ListLinked, SlotLinked, FieldOf, Value, SameAt, Entered, Bounded, Mine;
  }

  lemma OnwardQuiet(env: Env, out: Out, w: Trail, after: Out, msg: nat, i: nat, t: Thunk, s: nat)
    requires Enterable(env, out, w, after, msg, i, t, s) && Quiet(w, msg)
    ensures var w2 := Onward(out, w, msg, t, s);
            |w2.done| == |w2.todo| == |after.kinds| && s < |w2.todo| && w2.todo[s] == w.todo[msg][0].body.nodes
              && Quiet(w2, s)
            && Advanced(after, w2, after, w2, s, 0)
  {
    hide Along, EntersTo, FieldOf, Value, Mine, Place;
    EntersLater(env, out, w, after, msg, i, t, s);
  }

  lemma AdvancedMore(out: Out, w: Trail, out1: Out, w1: Trail, out2: Out, w2: Trail, msg: nat, count: nat)
    requires Advanced(out, w, out1, w1, msg, 1) && Advanced(out1, w1, out2, w2, msg, count)
    ensures Advanced(out, w, out2, w2, msg, 1 + count)
  {
    var t := w.todo[msg];
    assert t[..1] + t[1..][..count] == t[..1 + count] && t[1..][count..] == t[1 + count..];
  }

  /**
   The records of a tree, one after another, keep all in line: every message they are parsed into comes to mean what its
   records say.
   */
  lemma {:induction false} ApplyAlong(env: Env, at: nat, hi: nat, msg: nat, nodes: seq<Node>, out: Out, w: Trail)
    returns (w2: Trail)
    requires TypesOk(env.types) && env.byWhich && hi < 0x1_0000_0000 && hi + PADDING <= |env.mem|
    requires Along(env, out, w) && msg < |out.kinds| && out.kinds[msg] < |env.types| && w.todo[msg] == nodes
    requires Quiet(w, msg)
    requires TreeAt(env, out.kinds[msg], at, hi, nodes)
    ensures var r := Apply(env, at, out.kinds[msg], msg, nodes, out);
            r.Done? && Along(env, r.out, w2) && Advanced(out, w, r.out, w2, msg, |nodes|)
    decreases nodes
  {
    hide TypesOk, TreeAt, ApplyNode, WriteNode, Local, SlotLinked, ListLinked, RecordOk, At, Advanced, Bounded;
    if nodes == [] {
      w2 := w;
      NoneAdvanced(out, w, msg);
    } else {
      var ty := out.kinds[msg];
      TreeMore(env, ty, at, hi, nodes);
      var w1 := NodeAlong(env, at, msg, nodes[0], out, w);
      var out1 := ApplyNode(env, at, ty, msg, nodes[0], out).out;
      OneAdvanced(out, w, out1, w1, msg);
      w2 := ApplyAlong(env, at + |WriteNode(nodes[0])|, hi, msg, nodes[1..], out1, w1);
      AdvancedMore(out, w, out1, w1, Apply(env, at + |WriteNode(nodes[0])|, ty, msg, nodes[1..], out1).out, w2, msg,
        |nodes| - 1);
    }
  }

  lemma NoneAdvanced(out: Out, w: Trail, msg: nat)
    requires |w.done| == |w.todo| == |out.kinds| && msg < |w.done| && Quiet(w, msg)
    ensures Advanced(out, w, out, w, msg, 0)
  {
  }

  lemma OneAdvanced(out: Out, w: Trail, after: Out, w2: Trail, msg: nat)
    requires Advanced(out, w, after, w2, msg, 1)
    ensures msg < |out.kinds| <= |after.kinds| == |w2.todo| && after.kinds[msg] == out.kinds[msg]
    ensures w2.todo[msg] == w.todo[msg][1..] && Quiet(w2, msg)
  {
  }

  lemma {:induction false} NodeAlong(env: Env, at: nat, msg: nat, n: Node, out: Out, w: Trail) returns (w2: Trail)
    requires TypesOk(env.types) && env.byWhich
    requires at + |WriteNode(n)| < 0x1_0000_0000 && at + |WriteNode(n)| + PADDING <= |env.mem|
    requires Along(env, out, w) && msg < |out.kinds| && out.kinds[msg] < |env.types| && Quiet(w, msg)
    requires w.todo[msg] != [] && w.todo[msg][0] == n && RecordOk(env, out.kinds[msg], at, n)
    requires At(env.mem, at, n.tag) && At(env.mem, at + |n.tag|, WriteBody(n.body))
    ensures var r := ApplyNode(env, at, out.kinds[msg], msg, n, out);
            r.Done? && Along(env, r.out, w2) && Advanced(out, w, r.out, w2, msg, 1)
    decreases n
  {
    hide TypesOk, WriteBody, At, Advanced, FieldOf, Value, CodeOk, Suits, BodyOk, Local, SlotLinked, ListLinked;
    hide Bounded;
    hide UnknownOut, Stored, Conveys, Fits, KnownIn, Apply, EnterSub, Quiet;
    var ty, tag, p, z := out.kinds[msg], Value(n.tag), at + |n.tag|, at + |WriteNode(n)|;
    FieldFor(env.types, ty, tag);
    match FieldOf(env.types, ty, tag)
    case None =>
      AtJoin(env.mem, at, n.tag, WriteBody(n.body));
      w2 := Shift(w, msg);
      UnknownAlong(env, out, w, at, msg);
      UnknownKinds(env, ty, msg, at, z, out);
      ShiftAdvanced(out, w, UnknownOut(env, ty, msg, at, z, out), msg);
    case Some(i) =>
      var t := env.types[ty].fields[i].thunk;
      if IsMessage(t) {
        w2 := MessageAlong(env, at, msg, n, i, out, w);
      } else {
        KnownRead(env, t, tag % 8, p, z, n.body);
        StoredFits(env, t, tag % 8, p, z);
        var c := KnownIn(env, t, tag % 8, p, z).value;
        w2 := Shift(w, msg);
        FieldAlong(env, out, w, msg, i, t, p, z, c);
        FieldBounded(|env.types|, out, msg, i, t, p, z, c);
        ShiftAdvanced(out, w, FieldOut(out, msg, i, t, p, z, c), msg);
      }
  }

  lemma UnknownKinds(env: Env, ty: nat, msg: nat, at: nat, z: nat, out: Out)
    requires ty < |env.types|
    ensures UnknownOut(env, ty, msg, at, z, out).kinds == out.kinds
  {
  }

  lemma {:induction false} MessageAlong(env: Env, at: nat, msg: nat, n: Node, i: nat, out: Out, w: Trail)
    returns (w2: Trail)
    requires TypesOk(env.types) && env.byWhich
    requires at + |WriteNode(n)| < 0x1_0000_0000 && at + |WriteNode(n)| + PADDING <= |env.mem|
    requires Along(env, out, w) && msg < |out.kinds| && out.kinds[msg] < |env.types| && Quiet(w, msg)
    requires w.todo[msg] != [] && w.todo[msg][0] == n && RecordOk(env, out.kinds[msg], at, n)
    requires FieldOf(env.types, out.kinds[msg], Value(n.tag)) == Some(i)
    requires var t := env.types[out.kinds[msg]].fields[i].thunk; IsMessage(t) && t.ty < |env.types|
    requires At(env.mem, at + |n.tag|, WriteBody(n.body))
    ensures var r := ApplyNode(env, at, out.kinds[msg], msg, n, out);
            r.Done? && Along(env, r.out, w2) && Advanced(out, w, r.out, w2, msg, 1)
    decreases n, 0
  {
    hide TypesOk, At, Advanced, FieldOf, Value, CodeOk, TreeOk, Local, SlotLinked, ListLinked, Bounded, Along, Write;
    hide Apply, EnterSub, Quiet, Enterable, Onward;
    var t, p, z := env.types[out.kinds[msg]].fields[i].thunk, at + |n.tag|, at + |WriteNode(n)|;
    var q, nodes := p + |n.body.size|, n.body.nodes;
    AtSplit(env.mem, p, n.body.size, Write(nodes));
    var s := EnterReady(env, out, w, msg, i, t, q, z);
    EnterType(|env.types|, out, msg, i, t, q, z);
    var e := EnterSub(|env.types|, true, out, msg, i, t, q, z);
    EnterAlong(env, out, w, e.out, msg, i, t, s);
    EntersLater(env, out, w, e.out, msg, i, t, s);
    OnwardQuiet(env, out, w, e.out, msg, i, t, s);
    w2 := Onward(out, w, msg, t, s);
    var after := e.out;
    if nodes != [] {
      w2 := ApplyAlong(env, q, z, s, nodes, e.out, w2);
      after := Apply(env, q, t.ty, s, nodes, e.out).out;
    }
    SubAdvanced(env, out, w, e.out, msg, i, t, s, after, w2);
  }

  // ----- Round trips -----

  /**
   Parsing what is written for a tree, of at most so many levels, takes one step for each of its records, in order, and
   leaves a message that means the tree; a tree of more levels is too deep.
   */
  lemma RoundTrip(env: Env, len: nat, ty: nat, depth: nat, nodes: seq<Node>)
    requires TypesOk(env.types) && ty < |env.types| && env.byWhich && len < 0x1_0000_0000 && len + PADDING <= |env.mem|
    requires TreeAt(env, ty, 0, len, nodes)
    ensures var r := Walk(env, 0, len, ty, 0, depth, Start(ty));
            if Levels(env.types, env.elide, ty, nodes) <= depth then r.Done? && Meant(env, r.out, ty, nodes)
            else r == TooDeep
  {
    hide TypesOk, TreeAt, Along, Apply, Levels, Walk, Steps, StepsOf, Means, Local;
    var w := Trail([[]], [nodes], [Root]);
    StartAlong(env, ty, nodes);
    var w2 := ApplyAlong(env, 0, len, 0, nodes, Start(ty), w);
    WalkWritten(env, 0, len, ty, 0, depth, nodes, Start(ty));
    ApplySteps(env, 0, ty, 0, nodes, Start(ty));
    NoStepsYet(ty);
    var out := Apply(env, 0, ty, 0, nodes, Start(ty)).out;
    Nothing(nodes);
    AllDone(out, w2, nodes);
    AlongSizes(env, out, w2);
    AlongMeans(env, out, w2, 0);
  }

  lemma NoStepsYet(ty: nat)
    ensures StepsOf(Start(ty).events) == []
  {
  }

  lemma AlongSizes(env: Env, out: Out, w: Trail)
    requires Along(env, out, w)
    ensures |w.done| == |w.todo| == |w.owner| == |out.kinds|
  {
  }

  lemma AllDone(out: Out, w2: Trail, nodes: seq<Node>)
    requires |w2.todo| > 0 && Quiet(w2, 0) && w2.todo[0] == nodes[|nodes|..]
    ensures forall x :: 0 <= x < |w2.todo| ==> w2.todo[x] == []
    ensures nodes[..|nodes|] == nodes
  {
  }

  /** Every input that is parsed is what is written for a tree, and what is parsed means that tree. */
  lemma EveryParse(env: Env, len: nat, ty: nat, depth: nat) returns (nodes: seq<Node>)
    requires TypesOk(env.types) && ty < |env.types| && env.byWhich && len < 0x1_0000_0000 && len + PADDING <= |env.mem|
    requires Walk(env, 0, len, ty, 0, depth, Start(ty)).Done?
    ensures TreeAt(env, ty, 0, len, nodes) && Levels(env.types, env.elide, ty, nodes) <= depth
    ensures Meant(env, Walk(env, 0, len, ty, 0, depth, Start(ty)).out, ty, nodes)
  {
    hide TypesOk, TreeAt, Levels, Walk, Meant;
    nodes := TreeOf(env, 0, len, ty, 0, depth, Start(ty));
    RoundTrip(env, len, ty, depth, nodes);
  }
}
