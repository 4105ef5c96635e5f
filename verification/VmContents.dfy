/**
 The lists and maps of a parse are what the repeated and map fields of the arena make of the records that the parse
 met (internal/tdp/thunks/repeated.go and map.go).
 */
module VmContents {
  import opened Base128
  import opened MapEntry
  import opened Values
  import opened VmSpec
  import opened VmValues
  import opened Wire
  import opened Words
  import M = MapField
  import R = Repeated

  // ----- Records -----

  /** A record of the list in a slot of message m, which is of type t. */
  predicate IsElement(t: TypeParser, e: Event, m: nat, slot: int) {
    && e.Known? && e.msg == m && e.field < |t.fields|
    && var f := t.fields[e.field].thunk;
       (f.Append? || f.Packed?) && f.slot == slot
  }

  /** The records of that list, in stream order. */
  function ListRecords(t: TypeParser, events: seq<Event>, m: nat, slot: int): seq<R.Record> {
    if events == [] then []
    else
      var e, before := events[|events| - 1], ListRecords(t, events[..|events| - 1], m, slot);
      if IsElement(t, e, m, slot) then before + [R.Record(t.fields[e.field].thunk.Packed?, e.start, e.end)] else before
  }

  /** The records of the map in a slot of message m, in stream order. */
  function MapRecords(t: TypeParser, events: seq<Event>, m: nat, slot: int): seq<M.Record> {
    if events == [] then []
    else
      var e, before := events[|events| - 1], MapRecords(t, events[..|events| - 1], m, slot);
      if IsEntry(t, e, m, slot) then before + [M.Record(e.start, e.end)] else before
  }

  /** Whatever appends to the list in a slot appends elements of that kind. */
  ghost predicate ListOfKind(t: TypeParser, slot: int, item: Kind) {
    forall i :: 0 <= i < |t.fields| ==>
      var f := t.fields[i].thunk;
      && (f.Messages? ==> f.slot != slot)
      && (f.Append? || f.Packed? ==> f.slot == slot ==> f.item == item)
  }

  /** Whatever puts an entry in the map in a slot has those kinds of keys and values. */
  ghost predicate MapOfKinds(t: TypeParser, slot: int, key: Kind, value: Kind) {
    forall i :: 0 <= i < |t.fields| ==>
      var f := t.fields[i].thunk;
      f.MapOf? && f.slot == slot ==> f.key == key && f.value == value
  }

  // ----- Lists -----

  /** A record of varints is read as the repeated field reads it. */
  lemma VarintsMeet(env: Env, out: Out, e: Event, width: nat)
    requires e.Known? && ReadAt(env, out, e) && width in {1, 4, 8}
    requires var f := env.types[out.kinds[e.msg]].fields[e.field].thunk;
             (f.Append? || f.Packed?) && f.item == Varint(width)
    ensures var r := R.Record(env.types[out.kinds[e.msg]].fields[e.field].thunk.Packed?, e.start, e.end);
            R.VarintsOk(env.mem, r) && e.content == Items(Trunc(R.VarintsOf(env.mem, r), Limit(width)))
  {
    hide Varints, VarintIn, Limit;
    var f := env.types[out.kinds[e.msg]].fields[e.field].thunk;
    if f.Append? {
      R.TruncOne(VarintIn(env.mem, e.start, e.end, 10).value.0, Limit(width));
    }
  }

  lemma FixedMeet(env: Env, out: Out, e: Event, width: nat)
    requires e.Known? && ReadAt(env, out, e) && width in {4, 8}
    requires var f := env.types[out.kinds[e.msg]].fields[e.field].thunk;
             (f.Append? || f.Packed?) && f.item == Fixed(width)
    ensures var r := R.Record(env.types[out.kinds[e.msg]].fields[e.field].thunk.Packed?, e.start, e.end);
            R.InInput(env.mem, r) && R.FixedOk(env.mem, r, width) && e.content == Items(R.FixedOf(env.mem, r, width))
  {
    hide VarintIn, LittleEndian, Borrowed;
  }

  lemma {:induction false} VarintsAll(env: Env, out: Out, events: seq<Event>, m: nat, slot: int, width: nat)
    requires m < |out.kinds| && out.kinds[m] < |env.types| && ListOfKind(env.types[out.kinds[m]], slot, Varint(width))
    requires width in {1, 4, 8} && forall k :: 0 <= k < |events| && events[k].Known? ==> ReadAt(env, out, events[k])
    ensures var t := env.types[out.kinds[m]];
            var records := ListRecords(t, events, m, slot);
            && (forall i :: 0 <= i < |records| ==> R.VarintsOk(env.mem, records[i]))
            && ListOf(t, events, m, slot) == Trunc(R.AllVarints(env.mem, records), Limit(width))
  {
    hide ReadAt, R.VarintsOk, R.VarintsOf, Limit;
    if events != [] {
      var t, e := env.types[out.kinds[m]], events[|events| - 1];
      VarintsAll(env, out, events[..|events| - 1], m, slot, width);
      if IsElement(t, e, m, slot) {
        VarintsMeet(env, out, e, width);
        var records := ListRecords(t, events, m, slot);
        assert records[..|records| - 1] == ListRecords(t, events[..|events| - 1], m, slot);
        R.TruncAppend(R.AllVarints(env.mem, records[..|records| - 1]), R.VarintsOf(env.mem, records[|records| - 1]),
          Limit(width));
      }
    }
  }

  lemma {:induction false} FixedAll(env: Env, out: Out, events: seq<Event>, m: nat, slot: int, width: nat)
    requires m < |out.kinds| && out.kinds[m] < |env.types| && ListOfKind(env.types[out.kinds[m]], slot, Fixed(width))
    requires width in {4, 8} && forall k :: 0 <= k < |events| && events[k].Known? ==> ReadAt(env, out, events[k])
    ensures var t := env.types[out.kinds[m]];
            var records := ListRecords(t, events, m, slot);
            && (forall i :: 0 <= i < |records| ==>
               R.InInput(env.mem, records[i]) && R.FixedOk(env.mem, records[i], width))
            && ListOf(t, events, m, slot) == R.AllFixed(env.mem, records, width)
  {
    hide ReadAt, R.InInput, R.FixedOk, R.FixedOf;
    if events != [] {
      var t, e := env.types[out.kinds[m]], events[|events| - 1];
      FixedAll(env, out, events[..|events| - 1], m, slot, width);
      if IsElement(t, e, m, slot) {
        FixedMeet(env, out, e, width);
        var records := ListRecords(t, events, m, slot);
        assert records[..|records| - 1] == ListRecords(t, events[..|events| - 1], m, slot);
      }
    }
  }

  /**
   After a whole parse, a list of varints is what Repeated.Field.ParseAllVarints makes of the records that were met,
   which it accepts.
   */
  lemma VarintList(env: Env, len: nat, t: nat, depth: nat, m: nat, slot: int, width: nat)
    requires TypesOk(env.types) && t < |env.types| && !env.byWhich && len < 0x1_0000_0000 && len + PADDING <= |env.mem|
    requires Walk(env, 0, len, t, 0, depth, Start(t)).Done? && width in {1, 4, 8}
    requires var out := Walk(env, 0, len, t, 0, depth, Start(t)).out;
             m < |out.kinds| && out.kinds[m] < |env.types| && ListOfKind(env.types[out.kinds[m]], slot, Varint(width))
    ensures var out := Walk(env, 0, len, t, 0, depth, Start(t)).out;
            var records := ListRecords(env.types[out.kinds[m]], out.events, m, slot);
            && (forall i :: 0 <= i < |records| ==> R.VarintsOk(env.mem, records[i]))
            && ListAt(out, (m, slot)) == Trunc(R.AllVarints(env.mem, records), Limit(width))
  {
    hide TypesOk, Walk, ReadAt, ListOfKind, ListOf, Limit;
    var out := Walk(env, 0, len, t, 0, depth, Start(t)).out;
    AllGathered(env, len, t, depth, m, slot, 0);
    AllReadOf(env, len, t, depth);
    VarintsAll(env, out, out.events, m, slot, width);
  }

  /** The same for numbers of a fixed size, and Repeated.Field.ParseAllFixed. */
  lemma FixedList(env: Env, len: nat, t: nat, depth: nat, m: nat, slot: int, width: nat)
    requires TypesOk(env.types) && t < |env.types| && !env.byWhich && len < 0x1_0000_0000 && len + PADDING <= |env.mem|
    requires Walk(env, 0, len, t, 0, depth, Start(t)).Done? && width in {4, 8}
    requires var out := Walk(env, 0, len, t, 0, depth, Start(t)).out;
             m < |out.kinds| && out.kinds[m] < |env.types| && ListOfKind(env.types[out.kinds[m]], slot, Fixed(width))
    ensures var out := Walk(env, 0, len, t, 0, depth, Start(t)).out;
            var records := ListRecords(env.types[out.kinds[m]], out.events, m, slot);
            && (forall i :: 0 <= i < |records| ==>
               R.InInput(env.mem, records[i]) && R.FixedOk(env.mem, records[i], width))
            && ListAt(out, (m, slot)) == R.AllFixed(env.mem, records, width)
  {
    hide TypesOk, Walk, ReadAt, ListOfKind, ListOf;
    var out := Walk(env, 0, len, t, 0, depth, Start(t)).out;
    AllGathered(env, len, t, depth, m, slot, 0);
    AllReadOf(env, len, t, depth);
    FixedAll(env, out, out.events, m, slot, width);
  }

  // ----- Maps -----

  /** The entry is read as the map field reads it. */
  lemma EntryMeets(env: Env, out: Out, e: Event)
    requires e.Known? && ReadAt(env, out, e) && env.types[out.kinds[e.msg]].fields[e.field].thunk.MapOf?
    ensures var f := env.types[out.kinds[e.msg]].fields[e.field].thunk;
            var entry := M.EntryOf(env.mem, M.Record(e.start, e.end), M.Codec(f.key, f.value, env.lenient, env.skip));
            entry.Entry? && e.content == Pair(KeyOf(env.mem, f.key, entry.key), entry.value)
  {
    hide VarintIn, EntryIn;
  }

  lemma LastWinsNone(mem: seq<byte>, key: Kind, c: M.Codec)
    ensures M.LastWins(Extract(mem, key), mem, [], c) == map[]
  {
  }

  lemma LastWinsMore(mem: seq<byte>, key: Kind, records: seq<M.Record>, r: M.Record, c: M.Codec)
    requires (forall i :: 0 <= i < |records| ==> M.EntryOf(mem, records[i], c).Entry?) && M.EntryOf(mem, r, c).Entry?
    ensures forall i :: 0 <= i < |records + [r]| ==> M.EntryOf(mem, (records + [r])[i], c).Entry?
    ensures var e := M.EntryOf(mem, r, c);
            M.LastWins(Extract(mem, key), mem, records + [r], c) ==
            M.LastWins(Extract(mem, key), mem, records, c)[KeyOf(mem, key, e.key) := e.value]
  {
    hide M.EntryOf, KeyOf;
    assert (records + [r])[..|records|] == records;
  }

  lemma {:induction false} EntriesAll(env: Env, out: Out, events: seq<Event>, m: nat, slot: int, key: Kind, value: Kind)
    requires m < |out.kinds| && out.kinds[m] < |env.types| && MapOfKinds(env.types[out.kinds[m]], slot, key, value)
    requires forall k :: 0 <= k < |events| && events[k].Known? ==> ReadAt(env, out, events[k])
    ensures var t, c := env.types[out.kinds[m]], M.Codec(key, value, env.lenient, env.skip);
            var records := MapRecords(t, events, m, slot);
            && (forall i :: 0 <= i < |records| ==> M.EntryOf(env.mem, records[i], c).Entry?)
            && EntriesOf(t, events, m, slot) == M.LastWins(Extract(env.mem, key), env.mem, records, c)
  {
    hide ReadAt, M.EntryOf, M.LastWins, Extract, KeyOf;
    var t, c := env.types[out.kinds[m]], M.Codec(key, value, env.lenient, env.skip);
    if events == [] {
      LastWinsNone(env.mem, key, c);
    } else {
      var e, before := events[|events| - 1], events[..|events| - 1];
      EntriesAll(env, out, before, m, slot, key, value);
      if IsEntry(t, e, m, slot) {
        EntryMeets(env, out, e);
        LastWinsMore(env.mem, key, MapRecords(t, before, m, slot), M.Record(e.start, e.end), c);
      }
    }
  }

  /** extract, which compares keys by what they stand for. */
  function Extract(mem: seq<byte>, key: Kind): nat -> Key {
    (w: nat) => KeyOf(mem, key, w)
  }

  /** After a whole parse, a map is what MapField.Field.ParseAll makes of the records that were met. */
  lemma MapEntries(env: Env, len: nat, t: nat, depth: nat, m: nat, slot: int, key: Kind, value: Kind)
    requires TypesOk(env.types) && t < |env.types| && !env.byWhich && len < 0x1_0000_0000 && len + PADDING <= |env.mem|
    requires Walk(env, 0, len, t, 0, depth, Start(t)).Done?
    requires var out := Walk(env, 0, len, t, 0, depth, Start(t)).out;
             m < |out.kinds| && out.kinds[m] < |env.types| && MapOfKinds(env.types[out.kinds[m]], slot, key, value)
    ensures var out, c := Walk(env, 0, len, t, 0, depth, Start(t)).out, M.Codec(key, value, env.lenient, env.skip);
            var records := MapRecords(env.types[out.kinds[m]], out.events, m, slot);
            && (forall i :: 0 <= i < |records| ==> M.EntryOf(env.mem, records[i], c).Entry?)
            && MapAt(out, (m, slot)) == M.LastWins(Extract(env.mem, key), env.mem, records, c)
  {
    hide TypesOk, Walk, ReadAt, MapOfKinds, EntriesOf, M.LastWins;
    var out := Walk(env, 0, len, t, 0, depth, Start(t)).out;
    AllGathered(env, len, t, depth, m, slot, 0);
    AllReadOf(env, len, t, depth);
    EntriesAll(env, out, out.events, m, slot, key, value);
  }
}
