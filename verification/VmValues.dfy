/**
 What the messages hold after a parse: in every slot and for every key of a map the last value in the stream wins, and
 lists hold the elements of all their records.
 */
module VmValues {
  import opened Base128
  import opened MapEntry
  import opened Values
  import opened VmSlots
  import opened VmSpec
  import opened Wire
  import opened Wrappers
  import opened Words
  import N = Numbers
  import Utf8

  predicate Uses(t: Thunk, slot: int) {
    (t.Store? || t.Message?) && t.slot == slot
  }

  /** The field that used a slot of message m, which is of type t, last. */
  function LastUse(t: TypeParser, events: seq<Event>, m: nat, slot: int): Option<nat> {
    if events == [] then None
    else
      var e := events[|events| - 1];
      if !e.Unknown? && e.msg == m && e.field < |t.fields| && Uses(t.fields[e.field].thunk, slot) then Some(e.field)
      else LastUse(t, events[..|events| - 1], m, slot)
  }

  /** The word of the last record of field i of message m. */
  function LastWord(events: seq<Event>, m: nat, i: nat): Option<nat> {
    if events == [] then None
    else
      var e := events[|events| - 1];
      if e.Known? && e.msg == m && e.field == i && e.content.Word? then Some(e.content.word)
      else LastWord(events[..|events| - 1], m, i)
  }

  lemma LastEmit(t: TypeParser, out: Out, e: Event, m: nat, slot: int, i: nat)
    ensures LastUse(t, Emit(out, e).events, m, slot) ==
            if !e.Unknown? && e.msg == m && e.field < |t.fields| && Uses(t.fields[e.field].thunk, slot) then
              Some(e.field)
            else LastUse(t, out.events, m, slot)
    ensures LastWord(Emit(out, e).events, m, i) ==
            if e.Known? && e.msg == m && e.field == i && e.content.Word? then Some(e.content.word)
            else LastWord(out.events, m, i)
  {
    assert Emit(out, e).events[..|out.events|] == out.events;
  }

  lemma {:induction false} NoUse(t: TypeParser, events: seq<Event>, m: nat, slot: int)
    requires forall e :: e in events ==> e.msg < m
    ensures LastUse(t, events, m, slot) == None
  {
    if events != [] {
      NoUse(t, events[..|events| - 1], m, slot);
    }
  }

  // ----- The invariant -----

  /** A slot of message m holds what its last use left there. */
  ghost predicate SlotHeld(types: seq<TypeParser>, out: Out, m: nat, slot: int)
    requires m < |out.kinds| && out.kinds[m] < |types|
  {
    var t, key := types[out.kinds[m]], (m, slot);
    if key in out.which then
      var i := out.which[key];
      && i < |t.fields| && Uses(t.fields[i].thunk, slot) && LastUse(t, out.events, m, slot) == Some(i)
      && (t.fields[i].thunk.Store? ==>
            LastWord(out.events, m, i) == Some(LoadNumber(CellAt(out, key), WidthOf(t.fields[i].thunk.kind))))
    else LastUse(t, out.events, m, slot) == None && CellAt(out, key) == ZERO
  }

  /** Nothing refers to messages that were not allocated. */
  ghost predicate Bounded(types: nat, out: Out) {
    && KindsOk(types, out)
    && (forall e :: e in out.events ==> e.msg < |out.kinds|)
    && (forall key :: key in out.which || key in out.cells || key in out.lists || key in out.maps ==>
       key.0 < |out.kinds|)
    && (forall bit :: bit in out.bits ==> bit.0 < |out.kinds|)
    && (forall key :: key in out.cells ==> out.cells[key].under.None? || out.cells[key].under.value < |out.kinds|)
  }

  ghost predicate SlotsHeld(types: seq<TypeParser>, out: Out) {
    Bounded(|types|, out) && forall m, slot :: 0 <= m < |out.kinds| ==> SlotHeld(types, out, m, slot)
  }

  ghost predicate Held(env: Env, out: Out) {
    SlotsHeld(env.types, out) && Gathered(env.types, out) && AllRead(env, out)
  }

  lemma StartHeld(env: Env, ty: nat)
    requires ty < |env.types|
    ensures Held(env, Start(ty))
  {
  }

  lemma UnknownHeld(env: Env, ty: nat, msg: nat, lo: nat, z: nat, out: Out)
    requires ty < |env.types| && Held(env, out) && msg < |out.kinds|
    ensures Held(env, UnknownOut(env, ty, msg, lo, z, out)) && UnknownOut(env, ty, msg, lo, z, out).kinds == out.kinds
  {
    hide Gathered, SlotsHeld, KnownIn;
    UnknownSlots(env, ty, msg, lo, z, out);
    UnknownGathered(env.types, out, msg, lo, z);
  }

  lemma UnknownSlots(env: Env, ty: nat, msg: nat, lo: nat, z: nat, out: Out)
    requires ty < |env.types| && SlotsHeld(env.types, out) && msg < |out.kinds|
    ensures SlotsHeld(env.types, UnknownOut(env, ty, msg, lo, z, out))
    ensures UnknownOut(env, ty, msg, lo, z, out).kinds == out.kinds
  {
    hide LoadNumber;
    var out1 := UnknownOut(env, ty, msg, lo, z, out);
    forall m, slot | 0 <= m < |out.kinds|
      ensures SlotHeld(env.types, out1, m, slot)
    {
      assert SlotHeld(env.types, out, m, slot);
      var i := if (m, slot) in out.which then out.which[(m, slot)] else 0;
      LastEmit(env.types[out.kinds[m]], out, Unknown(msg, lo, z), m, slot, i);
    }
  }

  lemma FieldHeld(env: Env, out: Out, msg: nat, i: nat, p: nat, hi: nat, z: nat, c: Content)
    requires Held(env, out) && msg < |out.kinds| && i < |env.types[out.kinds[msg]].fields|
    requires hi + PADDING <= |env.mem| && hi < 0x1_0000_0000
    requires var f := env.types[out.kinds[msg]].fields[i];
             && !IsMessage(f.thunk) && ThunkOk(|env.types|, f.thunk, f.number % 8)
             && KnownIn(env, f.thunk, f.number % 8, p, hi) == Got(c, z)
    ensures Held(env, FieldOut(out, msg, i, env.types[out.kinds[msg]].fields[i].thunk, p, z, c))
  {
    hide SlotsHeld, Gathered, KnownIn, ReadAt, FieldOut, Fits;
    HeldKinds(env, out);
    var f := env.types[out.kinds[msg]].fields[i];
    StoredFits(env, f.thunk, f.number % 8, p, hi);
    FieldSlots(env.types, out, msg, i, p, z, c);
    FieldGathered(env.types, out, msg, i, p, z, c);
    assert ReadAt(env, out, Known(msg, i, p, z, c)) by {
      KnownWithin(env, f.thunk, f.number % 8, p, hi);
      KnownReadAt(env, out, msg, i, p, z, c);
    }
    FieldRead(env, out, msg, i, p, z, c);
  }

  lemma HeldKinds(env: Env, out: Out)
    requires Held(env, out)
    ensures Bounded(|env.types|, out) && KindsOk(|env.types|, out)
  {
  }

  lemma KnownReadAt(env: Env, out: Out, msg: nat, i: nat, p: nat, z: nat, c: Content)
    requires msg < |out.kinds| && out.kinds[msg] < |env.types| && i < |env.types[out.kinds[msg]].fields|
    requires z + PADDING <= |env.mem| && z < 0x1_0000_0000
    requires var f := env.types[out.kinds[msg]].fields[i];
             && ThunkOk(|env.types|, f.thunk, f.number % 8) && !IsMessage(f.thunk)
             && KnownIn(env, f.thunk, f.number % 8, p, z) == Got(c, z)
    ensures ReadAt(env, out, Known(msg, i, p, z, c))
  {
    hide KnownIn;
  }

  /** What was read is what the field parser stores. */
  predicate Fits(t: Thunk, c: Content) {
    match t
    case Store(k, _, _) => c.Word? && KindOk(k) && c.word < Limit(WidthOf(k))
    case Flag(_, _) => c.Word?
    case Append(_, _) => c.Items?
    case Packed(_, _) => c.Items?
    case MapOf(_, _, _) => c.Pair?
    case _ => false
  }

  lemma FieldSlots(types: seq<TypeParser>, out: Out, msg: nat, i: nat, p: nat, z: nat, c: Content)
    requires SlotsHeld(types, out) && msg < |out.kinds| && i < |types[out.kinds[msg]].fields|
    requires !IsMessage(types[out.kinds[msg]].fields[i].thunk) && Fits(types[out.kinds[msg]].fields[i].thunk, c)
    ensures SlotsHeld(types, FieldOut(out, msg, i, types[out.kinds[msg]].fields[i].thunk, p, z, c))
  {
    hide LoadNumber, StoreNumber, Limit, Stored, SlotHeld;
    var t := types[out.kinds[msg]].fields[i].thunk;
    StoredBounded(|types|, out, msg, i, t, c);
    StoredCells(out, msg, i, t, c);
    var out1 := FieldOut(out, msg, i, t, p, z, c);
    forall m, slot | 0 <= m < |out.kinds|
      ensures SlotHeld(types, out1, m, slot)
    {
      FieldSlot(types, out, msg, i, p, z, c, m, slot);
    }
  }

  lemma FieldSlot(types: seq<TypeParser>, out: Out, msg: nat, i: nat, p: nat, z: nat, c: Content, m: nat, slot: int)
    requires KindsOk(|types|, out) && msg < |out.kinds| && i < |types[out.kinds[msg]].fields| && m < |out.kinds|
    requires SlotHeld(types, out, m, slot)
    requires !IsMessage(types[out.kinds[msg]].fields[i].thunk) && Fits(types[out.kinds[msg]].fields[i].thunk, c)
    ensures FieldOut(out, msg, i, types[out.kinds[msg]].fields[i].thunk, p, z, c).kinds == out.kinds
    ensures SlotHeld(types, FieldOut(out, msg, i, types[out.kinds[msg]].fields[i].thunk, p, z, c), m, slot)
  {
    hide LoadNumber, StoreNumber, Limit, Stored, LastUse, LastWord;
    var t := types[out.kinds[msg]].fields[i].thunk;
    StoredCells(out, msg, i, t, c);
    var out1 := FieldOut(out, msg, i, t, p, z, c);
    var j := if (m, slot) in out1.which then out1.which[(m, slot)] else 0;
    LastEmit(types[out.kinds[m]], Stored(out, msg, i, t, c), Known(msg, i, p, z, c), m, slot, j);
    if t.Store? && (m, slot) == (msg, t.slot) {
      LoadStored(CellAt(out, (m, slot)), c.word, WidthOf(t.kind));
    }
  }

  lemma StoredBounded(types: nat, out: Out, msg: nat, i: nat, t: Thunk, c: Content)
    requires Bounded(types, out) && msg < |out.kinds|
    ensures Bounded(types, Stored(out, msg, i, t, c))
  {
    hide StoreNumber, Stored;
    StoredCells(out, msg, i, t, c);
    StoredKeys(out, msg, i, t, c);
    if t.Store? && c.Word? {
      StoreUnder(CellAt(out, (msg, t.slot)), c.word, WidthOf(t.kind));
    }
  }

  lemma StoredKeys(out: Out, msg: nat, i: nat, t: Thunk, c: Content)
    ensures var o := Stored(out, msg, i, t, c);
            && (forall key :: key in o.lists || key in o.maps ==> key in out.lists || key in out.maps || key.0 == msg)
            && (forall bit :: bit in o.bits ==> bit in out.bits || bit.0 == msg)
  {
    hide StoreNumber;
  }

  lemma StoreUnder(c: Cell, v: nat, width: nat)
    ensures StoreNumber(c, v, width).under.Some? ==> StoreNumber(c, v, width).under == c.under
  {
  }

  lemma EnterSlot(types: seq<TypeParser>, out: Out, msg: nat, i: nat, s: nat, z: nat, m: nat, slot: int)
    requires SlotsHeld(types, out) && msg < |out.kinds| && i < |types[out.kinds[msg]].fields|
    requires var t := types[out.kinds[msg]].fields[i].thunk; IsMessage(t) && t.ty < |types|
    requires m < |EnterSub(|types|, false, out, msg, i, types[out.kinds[msg]].fields[i].thunk, s, z).out.kinds|
    ensures var out1 := EnterSub(|types|, false, out, msg, i, types[out.kinds[msg]].fields[i].thunk, s, z).out;
            out1.kinds[m] < |types| && SlotHeld(types, out1, m, slot)
  {
    hide EnterSub, LoadNumber, LoadPointer, LastUse, LastWord, Appended;
    var t := types[out.kinds[msg]].fields[i].thunk;
    EnterCells(|types|, out, msg, i, t, s, z);
    var event := EnterStep(|types|, out, msg, i, t, s, z);
    var out1 := EnterSub(|types|, false, out, msg, i, t, s, z).out;
    LastEmit(types[out1.kinds[m]], out, event, m, slot, if (m, slot) in out1.which then out1.which[(m, slot)] else 0);
    if m < |out.kinds| {
      assert SlotHeld(types, out, m, slot);
    } else {
      NoUse(types[out1.kinds[m]], out.events, m, slot);
    }
  }

  /** A message field leads to a message of a known type, unless its slot holds a number. */
  lemma EnterHeld(env: Env, out: Out, msg: nat, i: nat, s: nat, z: nat)
    requires Held(env, out) && msg < |out.kinds| && i < |env.types[out.kinds[msg]].fields|
    requires var t := env.types[out.kinds[msg]].fields[i].thunk; IsMessage(t) && t.ty < |env.types|
    ensures var t := env.types[out.kinds[msg]].fields[i].thunk;
            var e := EnterSub(|env.types|, false, out, msg, i, t, s, z);
            && Held(env, e.out) && out.kinds <= e.out.kinds
            && (e.Into? ==> e.sub < |e.out.kinds| && e.out.kinds[e.sub] == e.ty < |env.types|)
            && (e.Astray? <==> t.Message? && LoadPointer(CellAt(out, (msg, t.slot))).Stray?)
  {
    hide SlotHeld, Gathered, GatheredAt, ReadAt, EnterSub, LoadPointer;
    EnterBounded(env.types, out, msg, i, s, z);
    EnterGathered(env.types, out, msg, i, s, z);
    EnterRead(env, out, msg, i, s, z);
    var out1 := EnterSub(|env.types|, false, out, msg, i, env.types[out.kinds[msg]].fields[i].thunk, s, z).out;
    forall m, slot | 0 <= m < |out1.kinds|
      ensures SlotHeld(env.types, out1, m, slot)
    {
      EnterSlot(env.types, out, msg, i, s, z, m, slot);
    }
  }

  lemma EnterBounded(types: seq<TypeParser>, out: Out, msg: nat, i: nat, s: nat, z: nat)
    requires Bounded(|types|, out) && msg < |out.kinds| && i < |types[out.kinds[msg]].fields|
    requires var t := types[out.kinds[msg]].fields[i].thunk; IsMessage(t) && t.ty < |types|
    ensures var t := types[out.kinds[msg]].fields[i].thunk;
            var e := EnterSub(|types|, false, out, msg, i, t, s, z);
            && Bounded(|types|, e.out) && out.kinds <= e.out.kinds
            && (e.Into? ==> e.sub < |e.out.kinds| && e.out.kinds[e.sub] == e.ty < |types|)
            && (e.Astray? <==> t.Message? && LoadPointer(CellAt(out, (msg, t.slot))).Stray?)
  {
    var t := types[out.kinds[msg]].fields[i].thunk;
    EnterLeads(types, out, msg, i, s, z);
    hide EnterSub;
    var event := EnterStep(|types|, out, msg, i, t, s, z);
    EnterCells(|types|, out, msg, i, t, s, z);
  }

  lemma EnterLeads(types: seq<TypeParser>, out: Out, msg: nat, i: nat, s: nat, z: nat)
    requires Bounded(|types|, out) && msg < |out.kinds| && i < |types[out.kinds[msg]].fields|
    requires var t := types[out.kinds[msg]].fields[i].thunk; IsMessage(t) && t.ty < |types|
    ensures var t := types[out.kinds[msg]].fields[i].thunk;
            var e := EnterSub(|types|, false, out, msg, i, t, s, z);
            && (e.Into? ==> e.sub < |e.out.kinds| && e.out.kinds[e.sub] == e.ty < |types|)
            && (e.Astray? <==> t.Message? && LoadPointer(CellAt(out, (msg, t.slot))).Stray?)
  {
  }

  // ----- Lists, maps and bits -----

  /** What a step adds to the list in a slot of message m, which is of type t. */
  function ItemsOf(t: TypeParser, e: Event, m: nat, slot: int): seq<nat> {
    if e.Unknown? || e.msg != m || e.field >= |t.fields| then []
    else
      match t.fields[e.field].thunk
      case Append(_, at) => if at == slot && e.Known? && e.content.Items? then e.content.items else []
      case Packed(_, at) => if at == slot && e.Known? && e.content.Items? then e.content.items else []
      case Messages(_, at) => if at == slot && e.Enter? then [e.sub] else []
      case _ => []
  }

  /** The elements of all records of the list in a slot, in stream order. */
  function ListOf(t: TypeParser, events: seq<Event>, m: nat, slot: int): seq<nat> {
    if events == [] then []
    else ListOf(t, events[..|events| - 1], m, slot) + ItemsOf(t, events[|events| - 1], m, slot)
  }

  /** A record of the map in a slot of message m. */
  predicate IsEntry(t: TypeParser, e: Event, m: nat, slot: int) {
    && e.Known? && e.msg == m && e.field < |t.fields|
    && t.fields[e.field].thunk.MapOf? && t.fields[e.field].thunk.slot == slot && e.content.Pair?
  }

  /** The last value of each key. */
  function EntriesOf(t: TypeParser, events: seq<Event>, m: nat, slot: int): map<Key, nat> {
    if events == [] then map[]
    else
      var e, before := events[|events| - 1], EntriesOf(t, events[..|events| - 1], m, slot);
      if IsEntry(t, e, m, slot) then before[e.content.key := e.content.item] else before
  }

  /** What a step makes of a bit of message m, if it sets or clears it. */
  function BitOf(t: TypeParser, e: Event, m: nat, bit: nat): Option<bool> {
    if !e.Known? || e.msg != m || e.field >= |t.fields| || !e.content.Word? then None
    else
      match t.fields[e.field].thunk
      case Store(_, _, presence) => if presence == Some(bit) then Some(true) else None
      case Flag(at, presence) =>
        if at == bit then Some(e.content.word != 0) else if presence == Some(bit) then Some(true) else None
      case _ => None
  }

  /** A bit is as the last record left it that sets or clears it, and clear if there is none. */
  predicate LastBit(t: TypeParser, events: seq<Event>, m: nat, bit: nat) {
    if events == [] then false
    else
      match BitOf(t, events[|events| - 1], m, bit)
      case None => LastBit(t, events[..|events| - 1], m, bit)
      case Some(flag) => flag
  }

  lemma NextStep(t: TypeParser, events: seq<Event>, e: Event, m: nat, slot: int, bit: nat)
    ensures ListOf(t, events + [e], m, slot) == ListOf(t, events, m, slot) + ItemsOf(t, e, m, slot)
    ensures EntriesOf(t, events + [e], m, slot) ==
            if IsEntry(t, e, m, slot) then EntriesOf(t, events, m, slot)[e.content.key := e.content.item]
            else EntriesOf(t, events, m, slot)
    ensures LastBit(t, events + [e], m, bit) ==
            match BitOf(t, e, m, bit) case None => LastBit(t, events, m, bit) case Some(flag) => flag
  {
    hide ItemsOf, IsEntry, BitOf;
    assert (events + [e])[..|events|] == events;
  }

  lemma {:induction false} NoSteps(t: TypeParser, events: seq<Event>, m: nat, slot: int, bit: nat)
    requires forall e :: e in events ==> e.msg < m
    ensures ListOf(t, events, m, slot) == [] && EntriesOf(t, events, m, slot) == map[] && !LastBit(t, events, m, bit)
  {
    if events != [] {
      NoSteps(t, events[..|events| - 1], m, slot, bit);
    }
  }

  /** The list and the map in a slot of message m, and one of its bits, are what the steps so far make of them. */
  ghost predicate GatheredAt(types: seq<TypeParser>, out: Out, m: nat, slot: int, bit: nat)
    requires m < |out.kinds| && out.kinds[m] < |types|
  {
    var t := types[out.kinds[m]];
    && ListAt(out, (m, slot)) == ListOf(t, out.events, m, slot)
    && MapAt(out, (m, slot)) == EntriesOf(t, out.events, m, slot)
    && ((m, bit) in out.bits <==> LastBit(t, out.events, m, bit))
  }

  ghost predicate Gathered(types: seq<TypeParser>, out: Out) {
    Bounded(|types|, out) && forall m, slot, bit: nat :: 0 <= m < |out.kinds| ==> GatheredAt(types, out, m, slot, bit)
  }

  /** One step changes a list, a map and a bit of message m, which is of type t, as it says. */
  ghost predicate Effect(t: TypeParser, out: Out, after: Out, e: Event, m: nat, slot: int, bit: nat) {
    && ListAt(after, (m, slot)) == ListAt(out, (m, slot)) + ItemsOf(t, e, m, slot)
    && MapAt(after, (m, slot)) == (if IsEntry(t, e, m, slot) then MapAt(out, (m, slot))[e.content.key := e.content.item]
                                   else MapAt(out, (m, slot)))
    && ((m, bit) in after.bits <==> match BitOf(t, e, m, bit) case None => (m, bit) in out.bits case Some(flag) => flag)
  }

  /** Steps that change what they say keep lists, maps and bits in line with the steps so far. */
  lemma GatheredNext(types: seq<TypeParser>, out: Out, after: Out, e: Event)
    requires Gathered(types, out) && Bounded(|types|, after) && after.events == out.events + [e]
    requires out.kinds <= after.kinds
    requires forall m, slot, bit: nat :: 0 <= m < |after.kinds| ==>
             Effect(types[after.kinds[m]], out, after, e, m, slot, bit)
    ensures Gathered(types, after)
  {
    hide Effect, GatheredAt;
    forall m, slot, bit: nat | 0 <= m < |after.kinds|
      ensures GatheredAt(types, after, m, slot, bit)
    {
      GatheredHere(types, out, after, e, m, slot, bit);
    }
  }

  lemma GatheredHere(types: seq<TypeParser>, out: Out, after: Out, e: Event, m: nat, slot: int, bit: nat)
    requires Bounded(|types|, out) && Bounded(|types|, after) && after.events == out.events + [e]
    requires out.kinds <= after.kinds
    requires m < |after.kinds| && Effect(types[after.kinds[m]], out, after, e, m, slot, bit)
    requires m < |out.kinds| ==> GatheredAt(types, out, m, slot, bit)
    ensures GatheredAt(types, after, m, slot, bit)
  {
    hide ItemsOf, IsEntry, BitOf, ListOf, EntriesOf, LastBit;
    var t := types[after.kinds[m]];
    NextStep(t, out.events, e, m, slot, bit);
    if m >= |out.kinds| {
      NoSteps(t, out.events, m, slot, bit);
    }
  }

  lemma UnknownGathered(types: seq<TypeParser>, out: Out, msg: nat, lo: nat, z: nat)
    requires Gathered(types, out) && msg < |out.kinds|
    ensures Gathered(types, Emit(out, Unknown(msg, lo, z)))
  {
    hide GatheredAt;
    GatheredNext(types, out, Emit(out, Unknown(msg, lo, z)), Unknown(msg, lo, z));
  }

  lemma FieldGathered(types: seq<TypeParser>, out: Out, msg: nat, i: nat, p: nat, z: nat, c: Content)
    requires Gathered(types, out) && msg < |out.kinds| && i < |types[out.kinds[msg]].fields|
    requires !IsMessage(types[out.kinds[msg]].fields[i].thunk) && Fits(types[out.kinds[msg]].fields[i].thunk, c)
    ensures Gathered(types, FieldOut(out, msg, i, types[out.kinds[msg]].fields[i].thunk, p, z, c))
  {
    hide Stored, Effect, GatheredAt;
    var t, e := types[out.kinds[msg]].fields[i].thunk, Known(msg, i, p, z, c);
    var after := FieldOut(out, msg, i, t, p, z, c);
    StoredBounded(|types|, out, msg, i, t, c);
    StoredCells(out, msg, i, t, c);
    forall m, slot, bit: nat | 0 <= m < |after.kinds|
      ensures Effect(types[after.kinds[m]], out, after, e, m, slot, bit)
    {
      FieldEffect(types[after.kinds[m]], out, msg, i, t, p, z, c, m, slot, bit);
    }
    GatheredNext(types, out, after, e);
  }

  lemma FieldEffect(t: TypeParser, out: Out, msg: nat, i: nat, f: Thunk, p: nat, z: nat, c: Content, m: nat, slot: int,
                    bit: nat)
    requires Fits(f, c) && (m == msg ==> i < |t.fields| && t.fields[i].thunk == f)
    ensures Effect(t, out, FieldOut(out, msg, i, f, p, z, c), Known(msg, i, p, z, c), m, slot, bit)
  {
    hide Limit, Stored, BitOf, ItemsOf, IsEntry, SetPresence, SetBit;
    StoredLists(out, msg, i, f, c);
    FieldItems(t, msg, i, f, p, z, c, m, slot);
    FieldBit(t, out, msg, i, f, p, z, c, m, bit);
  }

  lemma FieldItems(t: TypeParser, msg: nat, i: nat, f: Thunk, p: nat, z: nat, c: Content, m: nat, slot: int)
    requires Fits(f, c) && (m == msg ==> i < |t.fields| && t.fields[i].thunk == f)
    ensures var e := Known(msg, i, p, z, c);
            && ItemsOf(t, e, m, slot) ==
               (if m == msg && (f.Append? || f.Packed?) && f.slot == slot then c.items else [])
            && (IsEntry(t, e, m, slot) <==> m == msg && f.MapOf? && f.slot == slot)
  {
    hide Limit;
  }

  lemma FieldBit(t: TypeParser, out: Out, msg: nat, i: nat, f: Thunk, p: nat, z: nat, c: Content, m: nat, bit: nat)
    requires Fits(f, c) && (m == msg ==> i < |t.fields| && t.fields[i].thunk == f)
    ensures (m, bit) in Stored(out, msg, i, f, c).bits <==>
            match BitOf(t, Known(msg, i, p, z, c), m, bit) case None => (m, bit) in out.bits case Some(flag) => flag
  {
    hide Limit, Stored;
    StoredBits(out, msg, i, f, c);
  }

  lemma StoredLists(out: Out, msg: nat, i: nat, f: Thunk, c: Content)
    requires Fits(f, c)
    ensures var o := Stored(out, msg, i, f, c);
            && (f.Append? || f.Packed? ==> o.lists == Appended(out, msg, f.slot, c.items).lists)
            && (!f.Append? && !f.Packed? ==> o.lists == out.lists)
            && (f.MapOf? ==> o.maps == out.maps[(msg, f.slot) := MapAt(out, (msg, f.slot))[c.key := c.item]])
            && (!f.MapOf? ==> o.maps == out.maps)
  {
    hide StoreNumber, Limit;
  }

  lemma StoredBits(out: Out, msg: nat, i: nat, f: Thunk, c: Content)
    requires Fits(f, c)
    ensures var o := Stored(out, msg, i, f, c);
            && (f.Store? ==> o.bits == SetPresence(out, msg, f.presence).bits)
            && (f.Flag? ==> o.bits == SetBit(SetPresence(out, msg, f.presence), msg, f.bit, c.word != 0).bits)
            && (!f.Store? && !f.Flag? ==> o.bits == out.bits)
  {
    hide StoreNumber, Limit, SetBit, SetPresence;
  }

  lemma EnterGathered(types: seq<TypeParser>, out: Out, msg: nat, i: nat, s: nat, z: nat)
    requires Gathered(types, out) && msg < |out.kinds| && i < |types[out.kinds[msg]].fields|
    requires var t := types[out.kinds[msg]].fields[i].thunk; IsMessage(t) && t.ty < |types|
    ensures Gathered(types, EnterSub(|types|, false, out, msg, i, types[out.kinds[msg]].fields[i].thunk, s, z).out)
  {
    hide Effect, GatheredAt, EnterSub;
    var t := types[out.kinds[msg]].fields[i].thunk;
    EnterBounded(types, out, msg, i, s, z);
    var after := EnterSub(|types|, false, out, msg, i, t, s, z).out;
    var e := EnterStep(|types|, out, msg, i, t, s, z);
    forall m, slot, bit: nat | 0 <= m < |after.kinds|
      ensures Effect(types[after.kinds[m]], out, after, e, m, slot, bit)
    {
      EnterEffect(|types|, types[after.kinds[m]], out, msg, i, t, s, z, e, m, slot, bit);
    }
    GatheredNext(types, out, after, e);
  }

  lemma EnterEffect(types: nat, t: TypeParser, out: Out, msg: nat, i: nat, f: Thunk, s: nat, z: nat, e: Event, m: nat,
                    slot: int, bit: nat)
    requires IsMessage(f) && f.ty < types && (m == msg ==> i < |t.fields| && t.fields[i].thunk == f)
    requires e.msg == msg && (e.Enter? || e.Stray?) && e.field == i
    requires f.Messages? ==> e.Enter? && e.sub == |out.kinds|
    ensures Effect(t, out, EnterSub(types, false, out, msg, i, f, s, z).out, e, m, slot, bit)
  {
    hide EnterSub;
    var step := EnterStep(types, out, msg, i, f, s, z);
  }

  // ----- The records -----

  /** The record reads as the step says, in a message that ends with it. */
  ghost predicate ReadAt(env: Env, out: Out, e: Event)
    requires e.Known?
  {
    && e.msg < |out.kinds| && out.kinds[e.msg] < |env.types| && e.field < |env.types[out.kinds[e.msg]].fields|
    && var f := env.types[out.kinds[e.msg]].fields[e.field];
       && e.end + PADDING <= |env.mem| && e.end < 0x1_0000_0000 && ThunkOk(|env.types|, f.thunk, f.number % 8)
          && !IsMessage(f.thunk)
       && KnownIn(env, f.thunk, f.number % 8, e.start, e.end) == Got(e.content, e.end)
  }

  ghost predicate AllRead(env: Env, out: Out) {
    forall k :: 0 <= k < |out.events| && out.events[k].Known? ==> ReadAt(env, out, out.events[k])
  }

  lemma VarintWithin(mem: seq<byte>, p: nat, hi: nat, limit: nat, z: nat)
    requires hi + PADDING <= |mem| && limit <= 10 && VarintIn(mem, p, hi, limit).Some?
    requires VarintIn(mem, p, hi, limit).value.1 <= z <= hi
    ensures VarintIn(mem, p, z, limit) == VarintIn(mem, p, hi, limit)
  {
    hide IsVarint, Value, VarintLength;
  }

  lemma BytesWithin(mem: seq<byte>, p: nat, hi: nat)
    requires hi + PADDING <= |mem| && BytesIn(mem, p, hi).Some?
    ensures BytesIn(mem, p, BytesIn(mem, p, hi).value.1) == BytesIn(mem, p, hi)
  {
    hide VarintIn;
    VarintWithin(mem, p, hi, 10, BytesIn(mem, p, hi).value.1);
  }

  lemma ValueWithin(mem: seq<byte>, k: Kind, p: nat, hi: nat, lenient: bool)
    requires hi + PADDING <= |mem| && KindOk(k) && ValueIn(mem, k, p, hi, lenient).Got?
    ensures ValueIn(mem, k, p, ValueIn(mem, k, p, hi, lenient).end, lenient) == ValueIn(mem, k, p, hi, lenient)
  {
    hide VarintIn, BytesIn, Utf8.WellFormed, LittleEndian;
    if k.Bytes? || k.Text? {
      BytesWithin(mem, p, hi);
    } else if !k.Fixed? {
      VarintWithin(mem, p, hi, 10, ValueIn(mem, k, p, hi, lenient).end);
    }
  }

  /** What a field parser reads does not depend on what follows the record. */
  lemma KnownWithin(env: Env, t: Thunk, wireType: nat, p: nat, hi: nat)
    requires hi + PADDING <= |env.mem| && ThunkOk(|env.types|, t, wireType) && !IsMessage(t)
    requires KnownIn(env, t, wireType, p, hi).Got?
    ensures KnownIn(env, t, wireType, p, KnownIn(env, t, wireType, p, hi).end) == KnownIn(env, t, wireType, p, hi)
  {
    hide ValueIn, BytesIn, ContentsIn;
    if t.Packed? || t.MapOf? {
      BytesWithin(env.mem, p, hi);
    } else {
      ValueWithin(env.mem, ValueKind(t), p, hi, env.lenient);
    }
  }

  lemma FieldRead(env: Env, out: Out, msg: nat, i: nat, p: nat, z: nat, c: Content)
    requires AllRead(env, out) && msg < |out.kinds| && out.kinds[msg] < |env.types|
    requires i < |env.types[out.kinds[msg]].fields|
    requires ReadAt(env, out, Known(msg, i, p, z, c))
    ensures AllRead(env, FieldOut(out, msg, i, env.types[out.kinds[msg]].fields[i].thunk, p, z, c))
  {
    hide Stored, KnownIn;
    StoredCells(out, msg, i, env.types[out.kinds[msg]].fields[i].thunk, c);
  }

  lemma EnterRead(env: Env, out: Out, msg: nat, i: nat, s: nat, z: nat)
    requires AllRead(env, out) && Bounded(|env.types|, out) && msg < |out.kinds|
    requires i < |env.types[out.kinds[msg]].fields|
    requires var t := env.types[out.kinds[msg]].fields[i].thunk; IsMessage(t) && t.ty < |env.types|
    ensures AllRead(env, EnterSub(|env.types|, false, out, msg, i, env.types[out.kinds[msg]].fields[i].thunk, s, z).out)
  {
    hide EnterSub, KnownIn;
    EnterBounded(env.types, out, msg, i, s, z);
    var e := EnterStep(|env.types|, out, msg, i, env.types[out.kinds[msg]].fields[i].thunk, s, z);
  }

  // ----- The words -----

  /** The word that is stored for a value fits its slot. */
  lemma WordFits(mem: seq<byte>, k: Kind, p: nat, hi: nat, lenient: bool)
    requires hi + PADDING <= |mem| && KindOk(k) && hi < 0x1_0000_0000
    requires ValueIn(mem, k, p, hi, lenient).Got?
    ensures ValueIn(mem, k, p, hi, lenient).value < Limit(WidthOf(k))
  {
    hide VarintIn, BytesIn, Utf8.WellFormed, LittleEndian;
    if k.Fixed? {
      N.LittleFits(mem, p, k.width);
    } else if k.Bytes? || k.Text? {
      Limit8();
    } else {
      hide Limit;
      var m := Limit(WidthOf(k));
      LimitEven(WidthOf(k));
    }
  }

  lemma Limit8()
    ensures Limit(8) == 0x1_0000_0000_0000_0000
  {
    assert Limit(4) == 0x1_0000_0000;
  }

  lemma LimitEven(width: nat)
    requires width > 0
    ensures Limit(width) % 2 == 0 && Limit(width) >= 256
  {
  }

  // ----- The whole parse -----

  lemma {:induction false} WalkHeld(env: Env, lo: nat, hi: nat, ty: nat, msg: nat, depth: nat, out: Out)
    requires TypesOk(env.types) && Held(env, out) && !env.byWhich && hi < 0x1_0000_0000
    requires ty < |env.types| && msg < |out.kinds| && out.kinds[msg] == ty && lo <= hi && hi + PADDING <= |env.mem|
    requires Walk(env, lo, hi, ty, msg, depth, out).Done?
    ensures var r := Walk(env, lo, hi, ty, msg, depth, out); Held(env, r.out) && out.kinds <= r.out.kinds
    decreases hi - lo, 0
  {
    hide TypesOk, Held, TagIn, WalkRecord;
    if lo < hi {
      var t := TagIn(env.mem, lo, hi).value;
      RecordHeld(env, lo, t.0, t.1, hi, ty, msg, depth, out);
    }
  }

  lemma {:induction false} RecordHeld(env: Env, lo: nat, tag: nat, p: nat, hi: nat, ty: nat, msg: nat, depth: nat,
                                      out: Out)
    requires TypesOk(env.types) && Held(env, out) && !env.byWhich && hi < 0x1_0000_0000
    requires ty < |env.types| && msg < |out.kinds| && out.kinds[msg] == ty && lo < p <= hi && hi + PADDING <= |env.mem|
    requires WalkRecord(env, lo, tag, p, hi, ty, msg, depth, out).Done?
    ensures var r := WalkRecord(env, lo, tag, p, hi, ty, msg, depth, out); Held(env, r.out) && out.kinds <= r.out.kinds
    decreases hi - p, 2
  {
    hide TypesOk, Held, WalkRecord, BytesIn, BodyEnd, FieldOut, UnknownOut, KnownIn, Walk, WalkSub;
    if tag !in env.types[ty].tags {
      UnknownStep(env, lo, tag, p, hi, ty, msg, depth, out);
      var z := BodyEnd(env.mem, p, hi, tag, env.maxDepth).value;
      UnknownHeld(env, ty, msg, lo, z, out);
      WalkHeld(env, z, hi, ty, msg, depth, UnknownOut(env, ty, msg, lo, z, out));
    } else {
      var i := env.types[ty].tags[tag];
      KnownStep(env, lo, tag, p, hi, ty, msg, i, depth, out);
      var t := env.types[ty].fields[i].thunk;
      if IsMessage(t) {
        var (s, z) := BytesIn(env.mem, p, hi).value;
        SubHeld(env, s, z, hi, ty, msg, i, depth, out);
      } else {
        var r := KnownIn(env, t, tag % 8, p, hi);
        KnownField(env.types, ty, tag);
        FieldHeld(env, out, msg, i, p, hi, r.end, r.value);
        FieldKeepsKinds(out, msg, i, t, p, r.end, r.value);
        WalkHeld(env, r.end, hi, ty, msg, depth, FieldOut(out, msg, i, t, p, r.end, r.value));
      }
    }
  }

  lemma StoredFits(env: Env, t: Thunk, wireType: nat, p: nat, hi: nat)
    requires hi + PADDING <= |env.mem| && ThunkOk(|env.types|, t, wireType) && !IsMessage(t) && hi < 0x1_0000_0000
    requires KnownIn(env, t, wireType, p, hi).Got?
    ensures Fits(t, KnownIn(env, t, wireType, p, hi).value)
  {
    hide ValueIn, Limit;
    if t.Store? {
      WordFits(env.mem, t.kind, p, hi, env.lenient);
    }
  }

  lemma {:induction false} SubHeld(env: Env, s: nat, z: nat, hi: nat, ty: nat, msg: nat, i: nat, depth: nat, out: Out)
    requires TypesOk(env.types) && Held(env, out) && !env.byWhich && hi < 0x1_0000_0000
    requires ty < |env.types| && msg < |out.kinds| && out.kinds[msg] == ty && s <= z <= hi && hi + PADDING <= |env.mem|
    requires MessageField(env.types, ty, i)
    requires WalkSub(env, s, z, hi, ty, msg, i, depth, out).Done?
    ensures var r := WalkSub(env, s, z, hi, ty, msg, i, depth, out); Held(env, r.out) && out.kinds <= r.out.kinds
    decreases hi - s, 1
  {
    hide TypesOk, Held, EnterSub, Walk;
    EnterHeld(env, out, msg, i, s, z);
    var e := EnterSub(|env.types|, false, out, msg, i, env.types[ty].fields[i].thunk, s, z);
    if s == z {
      WalkHeld(env, z, hi, ty, msg, depth, e.out);
    } else {
      var below := Below(env, z, hi, depth);
      WalkHeld(env, s, z, e.ty, e.sub, below, e.out);
      WalkHeld(env, z, hi, ty, msg, depth, Walk(env, s, z, e.ty, e.sub, below, e.out).out);
    }
  }

  /**
   After a whole parse, every slot of every message tells the last record of the fields that use it: the which-word
   names that field, and if it is a number, the slot loads the number of that record. A slot that no record used is
   zero.
   */
  lemma LastWins(env: Env, len: nat, t: nat, depth: nat, m: nat, slot: int)
    requires TypesOk(env.types) && t < |env.types| && !env.byWhich && len < 0x1_0000_0000 && len + PADDING <= |env.mem|
    requires Walk(env, 0, len, t, 0, depth, Start(t)).Done?
    requires m < |Walk(env, 0, len, t, 0, depth, Start(t)).out.kinds|
    ensures var out := Walk(env, 0, len, t, 0, depth, Start(t)).out;
            var key := (m, slot);
            && out.kinds[m] < |env.types|
            && match LastUse(env.types[out.kinds[m]], out.events, m, slot)
               case None => key !in out.which && CellAt(out, key) == ZERO
               case Some(i) =>
                 && key in out.which && out.which[key] == i < |env.types[out.kinds[m]].fields|
                 && var f := env.types[out.kinds[m]].fields[i].thunk;
                    f.Store? ==> LastWord(out.events, m, i) == Some(LoadNumber(CellAt(out, key), WidthOf(f.kind)))
  {
    hide TypesOk, Walk, LastUse, LastWord, LoadNumber;
    StartHeld(env, t);
    WalkHeld(env, 0, len, t, 0, depth, Start(t));
    assert SlotHeld(env.types, Walk(env, 0, len, t, 0, depth, Start(t)).out, m, slot);
  }

  /**
   After a whole parse, every list of every message holds the elements of all its records, packed or not, or its
   messages, in stream order; every map holds the last value of each of its keys; and every bit is as the last record
   left it that sets or clears it.
   */
  lemma AllGathered(env: Env, len: nat, t: nat, depth: nat, m: nat, slot: int, bit: nat)
    requires TypesOk(env.types) && t < |env.types| && !env.byWhich && len < 0x1_0000_0000 && len + PADDING <= |env.mem|
    requires Walk(env, 0, len, t, 0, depth, Start(t)).Done?
    requires m < |Walk(env, 0, len, t, 0, depth, Start(t)).out.kinds|
    ensures var out := Walk(env, 0, len, t, 0, depth, Start(t)).out;
            && out.kinds[m] < |env.types|
            && var ty := env.types[out.kinds[m]];
               && ListAt(out, (m, slot)) == ListOf(ty, out.events, m, slot)
               && MapAt(out, (m, slot)) == EntriesOf(ty, out.events, m, slot)
               && ((m, bit) in out.bits <==> LastBit(ty, out.events, m, bit))
  {
    hide TypesOk, Walk, ListOf, EntriesOf, LastBit, SlotHeld;
    StartHeld(env, t);
    WalkHeld(env, 0, len, t, 0, depth, Start(t));
    assert GatheredAt(env.types, Walk(env, 0, len, t, 0, depth, Start(t)).out, m, slot, bit);
  }

  /** Every record that was met reads as its step says. */
  lemma AllReadOf(env: Env, len: nat, t: nat, depth: nat)
    requires TypesOk(env.types) && t < |env.types| && !env.byWhich && len < 0x1_0000_0000 && len + PADDING <= |env.mem|
    requires Walk(env, 0, len, t, 0, depth, Start(t)).Done?
    ensures AllRead(env, Walk(env, 0, len, t, 0, depth, Start(t)).out)
  {
    hide TypesOk, Walk, SlotsHeld, Gathered, AllRead;
    assert Held(env, Start(t)) by { StartHeld(env, t); }
    WalkHeld(env, 0, len, t, 0, depth, Start(t));
  }
}
