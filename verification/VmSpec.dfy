/**
 What parsing a message means: a recursive descent over the records of a buffer. The loop of
 internal/tdp/vm/run.go is proved to visit the same records in the same order and to store the same values.
 */
module VmSpec {
  import opened Base128
  import opened MapEntry
  import opened Values
  import opened Wire
  import opened Words
  import opened Wrappers
  import Tag

  // ----- Compiled message types -----

  /**
   What a field parser does: store a value in a slot, or a bool in a bit, and set the bit that tells the presence of
   the field if it has one; append an element, or those of a packed record, to the list in a slot; put an entry in
   the map in a slot; parse a submessage whose address is in a slot, or one more of the list in a slot.
   */
  datatype Thunk =
    | Store(kind: Kind, slot: int, presence: Option<nat>)
    | Flag(bit: nat, presence: Option<nat>)
    | Append(item: Kind, slot: int)
    | Packed(item: Kind, slot: int)
    | MapOf(key: Kind, value: Kind, slot: int)
    | Message(ty: nat, slot: int)
    | Messages(ty: nat, slot: int)

  predicate IsMessage(t: Thunk) {
    t.Message? || t.Messages?
  }

  /** A field parser fits the wire type of its tag and the types there are. */
  predicate ThunkOk(types: nat, t: Thunk, wireType: nat) {
    match t
    case Store(k, _, _) => KindOk(k) && WireType(k) == wireType
    case Flag(_, _) => WireType(Bool) == wireType
    case Append(k, _) => KindOk(k) && WireType(k) == wireType
    case Packed(k, _) => KindOk(k) && (k.Varint? || k.Fixed?) && wireType == 2
    case MapOf(ki, vi, _) => KindOk(ki) && KindOk(vi) && wireType == 2
    case Message(ty, _) => ty < types && wireType == 2
    case Messages(ty, _) => ty < types && wireType == 2
  }

  /** A field parser: the tag it expects, as a number and in spread form, and its successors. */
  datatype FieldParser = FieldParser(number: nat, tag: nat, nextOk: nat, nextErr: nat, thunk: Thunk)

  /** A type parser: its field parsers, the table for one-byte tags, the table for all tags, and the first parser. */
  datatype TypeParser = TypeParser(fields: seq<FieldParser>, lut: seq<nat>, tags: map<nat, nat>, entry: nat,
    discardUnknown: bool)

  const NO_PARSER: nat := 0xff

  /** The placeholder parser of a type without fields; no tag read from a buffer equals it. */
  const UNMATCHED: nat := 0xffff_ffff_ffff_ffff

  predicate FieldOk(types: nat, f: FieldParser, count: nat) {
    && f.nextOk < count && f.nextErr < count
    && (f.tag == UNMATCHED ||
        (f.number < 0x1_0000_0000 && f.tag == Tag.Spread(f.number) && ThunkOk(types, f.thunk, f.number % 8)))
  }

  /** The tables of a type parser agree with its field parsers. */
  ghost predicate TypeOk(types: nat, t: TypeParser) {
    && t.fields != [] && t.entry < |t.fields| && |t.lut| == 128
    && (forall i :: 0 <= i < |t.fields| ==> FieldOk(types, t.fields[i], |t.fields|))
    && (forall v :: v in t.tags ==>
       t.tags[v] < |t.fields| && t.fields[t.tags[v]].number == v && t.fields[t.tags[v]].tag != UNMATCHED)
    && (forall i :: 0 <= i < |t.fields| && t.fields[i].tag != UNMATCHED ==>
       t.fields[i].number in t.tags && t.tags[t.fields[i].number] == i)
    && (forall k :: 0 <= k < 128 && t.lut[k] != NO_PARSER ==> k in t.tags && t.tags[k] == t.lut[k])
  }

  ghost predicate TypesOk(types: seq<TypeParser>) {
    forall i :: 0 <= i < |types| ==> TypeOk(|types|, types[i])
  }

  // ----- What a parse produces -----

  /**
   What a field parser reads: the word of a value, the elements of a list, or a map's key with the word of its value.
   */
  datatype Content = Word(word: nat) | Items(items: seq<nat>) | Pair(key: Key, item: nat)

  /** One step of a parse, in the message it belongs to. */
  datatype Event =
    | Known(msg: nat, field: nat, start: nat, end: nat, content: Content)
    | Enter(msg: nat, field: nat, sub: nat, start: nat, end: nat)
    | Stray(msg: nat, field: nat, start: nat, end: nat)
    | Unknown(msg: nat, start: nat, end: nat)

  /**
   The steps so far; the type of every message; the slots of the messages, and, for each slot, the field parser that
   ran last on it, which the which-word tells of a slot that a oneof shares; the lists and the maps in slots; and the
   bits of the messages that are set.
   */
  datatype Out = Out(
    events: seq<Event>,
    kinds: seq<nat>,
    cells: map<(nat, int), Cell>,
    which: map<(nat, int), nat>,
    lists: map<(nat, int), seq<nat>>,
    maps: map<(nat, int), map<Key, nat>>,
    bits: set<(nat, nat)>)

  /** Before the parse of a message of type ty. */
  function Start(ty: nat): Out {
    Out([], [ty], map[], map[], map[], map[], {})
  }

  function Emit(out: Out, e: Event): Out {
    out.(events := out.events + [e])
  }

  function CellAt(out: Out, key: (nat, int)): Cell {
    if key in out.cells then out.cells[key] else ZERO
  }

  function ListAt(out: Out, key: (nat, int)): seq<nat> {
    if key in out.lists then out.lists[key] else []
  }

  function MapAt(out: Out, key: (nat, int)): map<Key, nat> {
    if key in out.maps then out.maps[key] else map[]
  }

  /** The list in slot `slot` of message msg grows by the given elements. */
  function Appended(out: Out, msg: nat, slot: int, items: seq<nat>): Out {
    out.(lists := out.lists[(msg, slot) := ListAt(out, (msg, slot)) + items])
  }

  function SetBit(out: Out, msg: nat, bit: nat, flag: bool): Out {
    out.(bits := if flag then out.bits + {(msg, bit)} else out.bits - {(msg, bit)})
  }

  /** The bit that tells the presence of a field is set, if there is one. */
  function SetPresence(out: Out, msg: nat, presence: Option<nat>): Out {
    if presence.Some? then SetBit(out, msg, presence.value, true) else out
  }

  /** msg is the address of a message of one of so many types. */
  predicate IsAddress(types: nat, out: Out, msg: nat) {
    msg < |out.kinds| && out.kinds[msg] < types
  }

  /** Where a message field leads: to a message, or to a number that is not the address of one. */
  datatype Entered = Into(out: Out, sub: nat, ty: nat) | Astray(out: Out)

  /**
   The message that parser `field` parses into. In the parser, that is whatever its slot leads to, with the type that
   message has. With byWhich, it is the one already in the field if the field is the one the slot was last used for,
   and else a new one.
   */
  function EnterSub(types: nat, byWhich: bool, out: Out, msg: nat, field: nat, t: Thunk, start: nat,
                    end: nat): (e: Entered)
    requires IsMessage(t) && t.ty < types
    ensures e.Into? ==> e.ty < types
  {
    var next := |out.kinds|;
    if t.Messages? then
      var longer := Appended(out, msg, t.slot, [next]);
      Into(Emit(longer, Enter(msg, field, next, start, end)).(kinds := out.kinds + [t.ty]), next, t.ty)
    else
      var key := (msg, t.slot);
      var mine := key in out.which && out.which[key] == field;
      var used := out.(which := out.which[key := field]);
      match if byWhich && !mine then Pointer.Nil else LoadPointer(CellAt(out, key))
      case Nil =>
        var more := used.(kinds := out.kinds + [t.ty], cells := out.cells[key := Address(next)]);
        Into(Emit(more, Enter(msg, field, next, start, end)), next, t.ty)
      case To(sub) =>
        if IsAddress(types, out, sub) then
          Into(Emit(used, Enter(msg, field, sub, start, end)), sub, if byWhich then t.ty else out.kinds[sub])
        else Astray(Emit(used, Event.Stray(msg, field, start, end)))
      case Stray => Astray(Emit(used, Event.Stray(msg, field, start, end)))
  }

  /** The slots and messages after a message field is entered. */
  lemma EnterCells(types: nat, out: Out, msg: nat, field: nat, t: Thunk, start: nat, end: nat)
    requires IsMessage(t) && t.ty < types
    ensures var o := EnterSub(types, false, out, msg, field, t, start, end).out;
            var key := (msg, if t.Message? then t.slot else 0);
            && (t.Messages? ==> o.cells == out.cells && o.which == out.which && o.kinds == out.kinds + [t.ty])
            && (t.Message? ==> o.which == out.which[key := field])
            && (t.Message? && LoadPointer(CellAt(out, key)).Nil? ==>
                  o.kinds == out.kinds + [t.ty] && o.cells == out.cells[key := Address(|out.kinds|)])
            && (t.Message? && !LoadPointer(CellAt(out, key)).Nil? ==> o.kinds == out.kinds && o.cells == out.cells)
  {
    hide LoadPointer;
  }

  /** The step that entering a message field is, and the lists after it. */
  lemma EnterStep(types: nat, out: Out, msg: nat, field: nat, t: Thunk, start: nat, end: nat) returns (e: Event)
    requires IsMessage(t) && t.ty < types
    ensures var o := EnterSub(types, false, out, msg, field, t, start, end).out;
            && o.events == out.events + [e] && (e.Enter? || e.Stray?) && e.msg == msg && e.field == field
            && (t.Messages? ==>
               e.Enter? && e.sub == |out.kinds| && o.lists == Appended(out, msg, t.slot, [e.sub]).lists)
            && (t.Message? ==> o.lists == out.lists) && o.maps == out.maps && o.bits == out.bits
  {
    hide LoadPointer;
    e := EnterSub(types, false, out, msg, field, t, start, end).out.events[|out.events|];
  }

  /** What a field parser other than for messages does with what it has read. */
  function Stored(out: Out, msg: nat, field: nat, t: Thunk, c: Content): Out {
    match (t, c)
    case (Store(k, slot, presence), Word(w)) =>
      var key := (msg, slot);
      SetPresence(out, msg, presence)
        .(cells := out.cells[key := StoreNumber(CellAt(out, key), w, WidthOf(k))], which := out.which[key := field])
    case (Flag(bit, presence), Word(w)) => SetBit(SetPresence(out, msg, presence), msg, bit, w != 0)
    case (Append(_, slot), Items(items)) => Appended(out, msg, slot, items)
    case (Packed(_, slot), Items(items)) => Appended(out, msg, slot, items)
    case (MapOf(_, _, slot), Pair(k, v)) => out.(maps := out.maps[(msg, slot) := MapAt(out, (msg, slot))[k := v]])
    case _ => out
  }

  /** Only a number goes to the slots that hold words. */
  lemma StoredCells(out: Out, msg: nat, field: nat, t: Thunk, c: Content)
    ensures var o, stores := Stored(out, msg, field, t, c), t.Store? && c.Word?;
            && o.events == out.events && o.kinds == out.kinds
            && (stores ==>
                  o.cells == out.cells[(msg, t.slot) := StoreNumber(CellAt(out, (msg, t.slot)), c.word,
                    WidthOf(t.kind))])
            && (stores ==> o.which == out.which[(msg, t.slot) := field])
            && (!stores ==> o.cells == out.cells && o.which == out.which)
  {
  }

  /** A record whose body is from p to z was parsed. */
  function FieldOut(out: Out, msg: nat, field: nat, t: Thunk, p: nat, z: nat, c: Content): Out {
    Emit(Stored(out, msg, field, t, c), Known(msg, field, p, z, c))
  }

  // ----- The recursive descent -----

  /**
   Unchanging inputs of a parse. With `elide`, a submessage that ends where its parent ends does not count as one
   more level, as in the parser, which needs no stack frame for it. With `byWhich`, a slot that several message
   fields share belongs to the one that was parsed last, as oneofs demand; the parser does not look. `lenient` is
   the option that turns UTF-8 validation off, and `skip` passes over the unknown records of a map's entries.
   */
  datatype Env = Env(types: seq<TypeParser>, mem: seq<byte>, maxDepth: nat, maxMisses: nat, discardUnknown: bool,
                     elide: bool, byWhich: bool, lenient: bool, skip: Skipper)

  /**
   How a parse ends: on a record that is not well formed, on contents that a field does not admit, on a submessage
   that is nested too deep, on a number that is taken for the address of a message, or in full.
   */
  datatype Outcome = Malformed | Invalid | TooDeep | Misread | Done(out: Out)

  predicate Keeps(env: Env, ty: nat)
    requires ty < |env.types|
  {
    !env.discardUnknown && !env.types[ty].discardUnknown
  }

  /** What the parser runs on. */
  ghost predicate EnvOk(env: Env) {
    TypesOk(env.types) && env.maxMisses >= 1 && !env.byWhich
  }

  /** What a field parser other than for messages reads between p and hi. */
  function KnownIn(env: Env, t: Thunk, wireType: nat, p: nat, hi: nat): (r: Read<Content>)
    requires hi + PADDING <= |env.mem| && ThunkOk(|env.types|, t, wireType) && !IsMessage(t)
    ensures r.Got? ==> p < r.end <= hi
  {
    if t.Packed? || t.MapOf? then
      match BytesIn(env.mem, p, hi)
      case None => Read.Broken
      case Some((s, z)) => ContentsIn(env, t, s, z)
    else
      match ValueIn(env.mem, ValueKind(t), p, hi, env.lenient)
      case Broken => Read.Broken
      case Refused => Read.Refused
      case Got(w, z) => Got(if t.Append? then Items([w]) else Word(w), z)
  }

  /** How the one value that a field parser reads is encoded. */
  function ValueKind(t: Thunk): Kind {
    if t.Store? then t.kind else if t.Append? then t.item else Bool
  }

  /** The contents of a packed record or of a map entry, from s to z. */
  function ContentsIn(env: Env, t: Thunk, s: nat, z: nat): (r: Read<Content>)
    requires s <= z && z + PADDING <= |env.mem|
    requires (t.Packed? && KindOk(t.item) && (t.item.Varint? || t.item.Fixed?))
             || (t.MapOf? && KindOk(t.key) && KindOk(t.value))
    ensures r.Got? ==> r.end == z
  {
    if t.MapOf? then
      match EntryIn(env.mem, s, z, t.key, t.value, env.lenient, env.skip, 0, 0)
      case Broken => Read.Broken
      case Refused => Read.Refused
      case Entry(k, v) => Got(Pair(KeyOf(env.mem, t.key, k), v), z)
    else if t.item.Varint? then
      match Varints(env.mem, s, z)
      case None => Read.Broken
      case Some(values) => Got(Items(Trunc(values, Limit(t.item.width))), z)
    else if (z - s) % t.item.width == 0 then Got(Items(Borrowed(env.mem, s, t.item.width, (z - s) / t.item.width)), z)
    else Read.Refused
  }

  /** Parses the records of env.mem[lo..hi] into message msg of type ty; submessages may nest `depth` levels deep. */
  ghost function Walk(env: Env, lo: nat, hi: nat, ty: nat, msg: nat, depth: nat, out: Out): Outcome
    requires TypesOk(env.types) && ty < |env.types| && lo <= hi && hi + PADDING <= |env.mem|
    decreases hi - lo, 0
  {
    if lo == hi then Done(out)
    else
      match TagIn(env.mem, lo, hi)
      case None => Malformed
      case Some(t) => WalkRecord(env, lo, t.0, t.1, hi, ty, msg, depth, out)
  }

  /** Walk after the tag of the first record, which starts at lo and ends at p. */
  ghost function WalkRecord(env: Env, lo: nat, tag: nat, p: nat, hi: nat, ty: nat, msg: nat, depth: nat,
                            out: Out): Outcome
    requires TypesOk(env.types) && ty < |env.types| && lo < p <= hi && hi + PADDING <= |env.mem|
    decreases hi - p, 2
  {
    if tag !in env.types[ty].tags then
      match BodyEnd(env.mem, p, hi, tag, env.maxDepth)
      case None => Malformed
      case Some(z) => Walk(env, z, hi, ty, msg, depth, UnknownOut(env, ty, msg, lo, z, out))
    else
      KnownField(env.types, ty, tag);
      var i := env.types[ty].tags[tag];
      var t := env.types[ty].fields[i].thunk;
      if IsMessage(t) then
        match BytesIn(env.mem, p, hi)
        case None => Malformed
        case Some((s, z)) => WalkSub(env, s, z, hi, ty, msg, i, depth, out)
      else
        match KnownIn(env, t, tag % 8, p, hi)
        case Broken => Malformed
        case Refused => Invalid
        case Got(c, z) => Walk(env, z, hi, ty, msg, depth, FieldOut(out, msg, i, t, p, z, c))
  }

  /** WalkRecord for message field i, whose contents are from s to z. */
  ghost function WalkSub(env: Env, s: nat, z: nat, hi: nat, ty: nat, msg: nat, i: nat, depth: nat, out: Out): Outcome
    requires TypesOk(env.types) && MessageField(env.types, ty, i) && s <= z <= hi && hi + PADDING <= |env.mem|
    decreases hi - s, 1
  {
    var e := EnterSub(|env.types|, env.byWhich, out, msg, i, env.types[ty].fields[i].thunk, s, z);
    if s == z then Walk(env, z, hi, ty, msg, depth, e.out)
    else if e.Astray? then Misread
    else if Level(env, z, hi) && depth == 0 then TooDeep
    else
      match Walk(env, s, z, e.ty, e.sub, Below(env, z, hi, depth), e.out)
      case Done(out2) => Walk(env, z, hi, ty, msg, depth, out2)
      case failure => failure
  }

  /** Field parser i of type ty parses messages of a known type. */
  predicate MessageField(types: seq<TypeParser>, ty: nat, i: nat) {
    && ty < |types| && i < |types[ty].fields|
    && IsMessage(types[ty].fields[i].thunk) && types[ty].fields[i].thunk.ty < |types|
  }

  /** Whether a submessage that ends at z, in a message that ends at hi, counts as a level. */
  predicate Level(env: Env, z: nat, hi: nat) {
    !env.elide || z != hi
  }

  /** How many levels are left inside that submessage. */
  function Below(env: Env, z: nat, hi: nat, depth: nat): nat
    requires Level(env, z, hi) ==> depth > 0
  {
    if Level(env, z, hi) then depth - 1 else depth
  }

  /** A record with an unknown tag is kept or dropped. */
  function UnknownOut(env: Env, ty: nat, msg: nat, lo: nat, z: nat, out: Out): Out
    requires ty < |env.types|
  {
    if Keeps(env, ty) then Emit(out, Unknown(msg, lo, z)) else out
  }

  lemma TypesOkAt(types: seq<TypeParser>, ty: nat)
    requires TypesOk(types) && ty < |types|
    ensures TypeOk(|types|, types[ty])
  {
  }

  /** The parser the table names for a tag. */
  lemma KnownField(types: seq<TypeParser>, ty: nat, tag: nat)
    requires TypesOk(types) && ty < |types| && tag in types[ty].tags
    ensures var i := types[ty].tags[tag];
            && i < |types[ty].fields| && FieldOk(|types|, types[ty].fields[i], |types[ty].fields|)
            && types[ty].fields[i].tag != UNMATCHED && types[ty].fields[i].number == tag
            && ThunkOk(|types|, types[ty].fields[i].thunk, tag % 8)
  {
    TypesOkAt(types, ty);
    var t := types[ty];
    assert FieldOk(|types|, t.fields[t.tags[tag]], |t.fields|);
  }

  lemma UnknownStep(env: Env, lo: nat, tag: nat, p: nat, hi: nat, ty: nat, msg: nat, depth: nat, out: Out)
    requires TypesOk(env.types) && ty < |env.types| && lo < p <= hi && hi + PADDING <= |env.mem|
    requires tag !in env.types[ty].tags
    ensures WalkRecord(env, lo, tag, p, hi, ty, msg, depth, out) ==
            match BodyEnd(env.mem, p, hi, tag, env.maxDepth)
            case None => Malformed
            case Some(z) => Walk(env, z, hi, ty, msg, depth, UnknownOut(env, ty, msg, lo, z, out))
  {
    hide TypesOk, BodyEnd, UnknownOut, Walk, WalkSub, KnownIn, BytesIn;
  }

  /** The rest of WalkRecord once the field parser is known. */
  lemma KnownStep(env: Env, lo: nat, tag: nat, p: nat, hi: nat, ty: nat, msg: nat, i: nat, depth: nat, out: Out)
    requires TypesOk(env.types) && ty < |env.types| && lo < p <= hi && hi + PADDING <= |env.mem|
    requires tag in env.types[ty].tags && i == env.types[ty].tags[tag]
    ensures i < |env.types[ty].fields| && FieldOk(|env.types|, env.types[ty].fields[i], |env.types[ty].fields|)
    ensures ThunkOk(|env.types|, env.types[ty].fields[i].thunk, tag % 8)
    ensures var t := env.types[ty].fields[i].thunk;
            && (IsMessage(t) ==> WalkRecord(env, lo, tag, p, hi, ty, msg, depth, out) ==
                                 match BytesIn(env.mem, p, hi)
                                 case None => Malformed
                                 case Some((s, z)) => WalkSub(env, s, z, hi, ty, msg, i, depth, out))
            && (!IsMessage(t) ==> WalkRecord(env, lo, tag, p, hi, ty, msg, depth, out) ==
                                  match KnownIn(env, t, tag % 8, p, hi)
                                  case Broken => Malformed
                                  case Refused => Invalid
                                  case Got(c, z) => Walk(env, z, hi, ty, msg, depth, FieldOut(out, msg, i, t, p, z, c)))
  {
    hide TypesOk, BodyEnd, FieldOut, UnknownOut, Walk, WalkSub, KnownIn, BytesIn;
    KnownField(env.types, ty, tag);
  }

  // ----- The rest of a parse -----

  /** A message whose parse was interrupted by one of its submessages. */
  datatype Pending = Pending(end: nat, ty: nat, msg: nat, depth: nat)

  ghost predicate PendingOk(env: Env, end: nat, pending: seq<Pending>)
    decreases |pending|
  {
    pending == [] ||
    (end <= pending[0].end && pending[0].end + PADDING <= |env.mem| && pending[0].ty < |env.types|
     && PendingOk(env, pending[0].end, pending[1..]))
  }

  /** Finishes the current message and then, in turn, the pending ones. */
  ghost function Finish(env: Env, ptr: nat, end: nat, ty: nat, msg: nat, depth: nat, pending: seq<Pending>,
                        out: Out): Outcome
    requires TypesOk(env.types) && ty < |env.types| && ptr <= end && end + PADDING <= |env.mem|
    requires PendingOk(env, end, pending)
    decreases |pending|
  {
    match Walk(env, ptr, end, ty, msg, depth, out)
    case Done(out1) =>
      if pending == [] then Done(out1)
      else Finish(env, end, pending[0].end, pending[0].ty, pending[0].msg, pending[0].depth, pending[1..], out1)
    case failure => failure
  }

  // ----- Levels -----

  /**
   Not counting the submessages that end with their parents changes no parse, however it ends, except that one which
   would be too deep may go through.
   */
  lemma {:induction false} ElisionHarmless(env: Env, lo: nat, hi: nat, ty: nat, msg: nat, depth: nat, more: nat,
                                           out: Out)
    requires TypesOk(env.types) && ty < |env.types| && lo <= hi && hi + PADDING <= |env.mem| && !env.elide
    requires depth <= more
    requires !Walk(env, lo, hi, ty, msg, depth, out).TooDeep?
    ensures Walk(env.(elide := true), lo, hi, ty, msg, more, out) == Walk(env, lo, hi, ty, msg, depth, out)
    decreases hi - lo, 0
  {
    hide TypesOk, TagIn, WalkRecord;
    if lo < hi && TagIn(env.mem, lo, hi).Some? {
      var t := TagIn(env.mem, lo, hi).value;
      RecordElision(env, lo, t.0, t.1, hi, ty, msg, depth, more, out);
    }
  }

  lemma {:induction false} RecordElision(env: Env, lo: nat, tag: nat, p: nat, hi: nat, ty: nat, msg: nat, depth: nat,
                                         more: nat, out: Out)
    requires TypesOk(env.types) && ty < |env.types| && lo < p <= hi && hi + PADDING <= |env.mem| && !env.elide
    requires depth <= more
    requires !WalkRecord(env, lo, tag, p, hi, ty, msg, depth, out).TooDeep?
    ensures WalkRecord(env.(elide := true), lo, tag, p, hi, ty, msg, more, out) ==
            WalkRecord(env, lo, tag, p, hi, ty, msg, depth, out)
    decreases hi - p, 2
  {
    hide TypesOk, TagIn, BytesIn, BodyEnd, EnterSub, FieldOut, UnknownOut, KnownIn, Walk, WalkSub;
    if tag !in env.types[ty].tags {
      if BodyEnd(env.mem, p, hi, tag, env.maxDepth).Some? {
        var z := BodyEnd(env.mem, p, hi, tag, env.maxDepth).value;
        UnknownElsewhere(env, ty, msg, lo, z, out);
        ElisionHarmless(env, z, hi, ty, msg, depth, more, UnknownOut(env, ty, msg, lo, z, out));
      }
    } else {
      KnownField(env.types, ty, tag);
      var i := env.types[ty].tags[tag];
      var t := env.types[ty].fields[i].thunk;
      if IsMessage(t) {
        if BytesIn(env.mem, p, hi).Some? {
          var (s, z) := BytesIn(env.mem, p, hi).value;
          SubElision(env, s, z, hi, ty, msg, i, depth, more, out);
        }
      } else {
        KnownElsewhere(env, t, tag % 8, p, hi);
        var r := KnownIn(env, t, tag % 8, p, hi);
        if r.Got? {
          ElisionHarmless(env, r.end, hi, ty, msg, depth, more, FieldOut(out, msg, i, t, p, r.end, r.value));
        }
      }
    }
  }

  lemma {:induction false} SubElision(env: Env, s: nat, z: nat, hi: nat, ty: nat, msg: nat, i: nat, depth: nat,
                                      more: nat, out: Out)
    requires TypesOk(env.types) && MessageField(env.types, ty, i)
    requires s <= z <= hi && hi + PADDING <= |env.mem| && !env.elide && depth <= more
    requires !WalkSub(env, s, z, hi, ty, msg, i, depth, out).TooDeep?
    ensures WalkSub(env.(elide := true), s, z, hi, ty, msg, i, more, out) ==
            WalkSub(env, s, z, hi, ty, msg, i, depth, out)
    decreases hi - s, 1
  {
    hide TypesOk, EnterSub, Walk;
    var e := EnterSub(|env.types|, env.byWhich, out, msg, i, env.types[ty].fields[i].thunk, s, z);
    if s == z {
      ElisionHarmless(env, z, hi, ty, msg, depth, more, e.out);
    } else if e.Into? {
      ElisionHarmless(env, s, z, e.ty, e.sub, depth - 1, if z == hi then more else more - 1, e.out);
      var r := Walk(env, s, z, e.ty, e.sub, depth - 1, e.out);
      if r.Done? {
        ElisionHarmless(env, z, hi, ty, msg, depth, more, r.out);
      }
    }
  }

  lemma UnknownElsewhere(env: Env, ty: nat, msg: nat, lo: nat, z: nat, out: Out)
    requires ty < |env.types|
    ensures UnknownOut(env.(elide := true), ty, msg, lo, z, out) == UnknownOut(env, ty, msg, lo, z, out)
  {
  }

  lemma KnownElsewhere(env: Env, t: Thunk, wireType: nat, p: nat, hi: nat)
    requires hi + PADDING <= |env.mem| && ThunkOk(|env.types|, t, wireType) && !IsMessage(t)
    ensures KnownIn(env.(elide := true), t, wireType, p, hi) == KnownIn(env, t, wireType, p, hi)
  {
  }
}
