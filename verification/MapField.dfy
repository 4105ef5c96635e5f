/** Map fields with scalar, string or bytes values (internal/tdp/thunks/map.go, parseMapKxV). */
module MapField {
  import opened Base128
  import opened MapEntry
  import opened Values
  import opened VmFields
  import opened VmRecords
  import opened Wire
  import opened Words
  import P = SwissProbe
  import T = SwissTable

  /** How a map's keys and values are encoded, whether text must be UTF-8, and how unknown records are passed over. */
  datatype Codec = Codec(key: Kind, value: Kind, lenient: bool, skip: Skipper)

  /** A length-prefixed entry, in a message that goes on to end. */
  datatype Record = Record(start: nat, end: nat)

  /** What comes of a record: it may be malformed, hold text that is not UTF-8, or hold a key and a value. */
  function EntryOf(mem: seq<byte>, r: Record, c: Codec): Entry {
    if !KindOk(c.key) || !KindOk(c.value) || !(r.start <= r.end < TWO64 && r.end + PADDING <= |mem|) then Entry.Broken
    else
      match BytesIn(mem, r.start, r.end)
      case None => Entry.Broken
      case Some((s, z)) => EntryIn(mem, s, z, c.key, c.value, c.lenient, c.skip, 0, 0)
  }

  /** The last value of each key. */
  ghost function LastWins<X>(extract: nat -> X, mem: seq<byte>, records: seq<Record>, c: Codec): map<X, nat>
    requires forall i :: 0 <= i < |records| ==> EntryOf(mem, records[i], c).Entry?
  {
    if records == [] then map[]
    else
      var e := EntryOf(mem, records[|records| - 1], c);
      LastWins(extract, mem, records[..|records| - 1], c)[extract(e.key) := e.value]
  }

  lemma LastWinsNone<X>(extract: nat -> X, mem: seq<byte>, c: Codec)
    ensures LastWins(extract, mem, [], c) == map[]
  {
  }

  lemma LastWinsNext<X>(extract: nat -> X, mem: seq<byte>, records: seq<Record>, c: Codec, i: nat)
    requires i < |records| && forall k :: 0 <= k <= i ==> EntryOf(mem, records[k], c).Entry?
    ensures var e := EntryOf(mem, records[i], c);
            LastWins(extract, mem, records[..i + 1], c) ==
              LastWins(extract, mem, records[..i], c)[extract(e.key) := e.value]
  {
    hide EntryOf;
    assert records[..i + 1][..i] == records[..i];
  }

  /** How the parse of a record ends. */
  datatype Step = Parsed(ptr: nat) | InvalidText | Panics

  class Field<X(==,!new)> {
    const extract: nat -> X
    /** How many entries a new table has room for, if more than one. */
    const preload: nat
    var table: T.Table?<nat, X, nat>

    ghost predicate Valid()
      reads this, Repr()
    {
      table != null ==> table.Valid() && table.extract == extract
    }

    ghost function Repr(): set<object>
      reads this, table
    {
      if table == null then {}
      else
        var t: T.Table<nat, X, nat> := table;
        {t, t.ctrl, t.keys, t.values}
    }

    ghost function View(): map<X, nat>
      requires Valid()
      reads this, Repr()
    {
      if table == null then map[] else table.View()
    }

    ghost function Len(): nat
      reads this, table
    {
      if table == null then 0 else table.len
    }

    constructor (extract: nat -> X, preload: nat)
      ensures Valid() && table == null && View() == map[] && this.extract == extract && this.preload == preload
    {
      this.extract, this.preload, this.table := extract, preload, null;
    }

    /**
     The insertion of parseMapKxV. A table that refuses the key is replaced by a larger one, under the hash that is
     fresh then, which takes it. Too many entries make Layout panic.
     */
    method Put(k: nat, v: nat, seed: X -> word) returns (panics: bool)
      requires Valid()
      modifies this, Repr()
      ensures Valid() && fresh(Repr() - old(Repr()))
      ensures panics <==>
              old(if table == null then preload > P.MAX_ENTRIES
              else table.len == table.soft && table.len >= P.MAX_ENTRIES)
      ensures !panics ==> View() == old(View())[extract(k) := v] && table != null
      ensures panics ==> View() == old(View())
      ensures old(Len()) <= Len() <= old(Len()) + 1
    {
      hide T.Table.View, T.Table.Valid;
      if table == null {
        var cap := if preload > 1 then preload else 1;
        if cap > P.MAX_ENTRIES {
          return true;
        }
        table := NewTable(cap, seed);
      }
      var m: T.Table<nat, X, nat> := table;
      var ok := InsertInto(m, k, v);
      if !ok {
        if m.len + 1 > P.MAX_ENTRIES {
          return true;
        }
        table := Enlarged(m, seed);
        ok := InsertInto(table, k, v);
        assert ok;
      }
      panics := false;
    }

    /** Insert, and the store through the pointer it returns; false if it refuses. */
    method InsertInto(m: T.Table<nat, X, nat>, k: nat, v: nat) returns (ok: bool)
      requires m.Valid() && m.extract == extract
      modifies m, m.ctrl, m.keys, m.values
      ensures m.Valid() && m.ctrl == old(m.ctrl) && m.keys == old(m.keys) && m.values == old(m.values)
      ensures m.soft == old(m.soft)
      ensures if ok then old(m.len < m.soft) else old(m.len == m.soft)
      ensures m.View() == if ok then old(m.View())[extract(k) := v] else old(m.View())
      ensures old(m.len) <= m.len <= old(m.len) + 1 && (!ok ==> m.len == old(m.len))
    {
      hide T.Represents, T.Mirrored;
      var idx;
      ok, idx := m.Insert(k);
      if ok {
        m.SetValue(extract(k), idx, v);
      }
    }

    /** A table under another hash, with the same entries and room for one more. */
    method Enlarged(m: T.Table<nat, X, nat>, seed: X -> word) returns (t: T.Table<nat, X, nat>)
      requires m.Valid() && m.extract == extract && m.len + 1 <= P.MAX_ENTRIES
      ensures fresh(t) && fresh(t.ctrl) && fresh(t.keys) && fresh(t.values)
      ensures t.Valid() && t.extract == extract && t.View() == m.View() && t.len == m.len < t.soft
    {
      hide T.Represents, T.Mirrored;
      t := NewTable(m.len + 1, seed);
      t.CopyFrom(m);
      SameSize(m);
      SameSize(t);
    }

    /** A table's length is the number of keys it stands for. */
    lemma SameSize(m: T.Table<nat, X, nat>)
      requires m.Valid()
      ensures m.len == |m.View()|
    {
      assert m.View().Keys == m.at.Keys;
    }

    /** Layout and Init: an empty table with room for len entries. */
    method NewTable(len: nat, seed: X -> word) returns (t: T.Table<nat, X, nat>)
      requires len <= P.MAX_ENTRIES
      ensures fresh(t) && fresh(t.ctrl) && fresh(t.keys) && fresh(t.values)
      ensures t.Valid() && t.extract == extract && t.at == map[] && t.len == 0 && t.View() == map[] && t.soft >= len
    {
      hide T.Represents, T.Mirrored;
      P.LoadFactorExact(len);
      t := new T.Table(len, seed, extract);
    }

    /** A table with at most as many entries as Layout allows for is not at a soft cap beyond that. */
    lemma NotFull()
      requires Valid()
      ensures Len() == |View()|
      ensures table != null && table.len == table.soft && |View()| <= P.MAX_ENTRIES ==> table.len < P.MAX_ENTRIES
    {
      hide T.Represents, T.Mirrored;
      if table != null {
        SameSize(table);
        assert 8 * table.soft == 7 * table.hard;
        assert P.MAX_ENTRIES % 7 == 1;
      }
    }

    /**
     parseMapKxV: one record. An entry is set in the table; text that is not UTF-8 fails the parse; too many entries
     panic. In both of the latter cases the map stays.
     */
    method ParseRecord(mem: seq<byte>, r: Record, c: Codec, seed: X -> word) returns (t: Step)
      requires Valid() && !EntryOf(mem, r, c).Broken?
      modifies this, Repr()
      ensures Valid() && fresh(Repr() - old(Repr()))
      ensures t.InvalidText? <==> EntryOf(mem, r, c).Refused?
      ensures t.Panics? <==> EntryOf(mem, r, c).Entry?
                             && old(if table == null then preload > P.MAX_ENTRIES
                                else table.len == table.soft && table.len >= P.MAX_ENTRIES)
      ensures t.Parsed? ==> t.ptr == BytesIn(mem, r.start, r.end).value.1
                            && View() == old(View())[extract(EntryOf(mem, r, c).key) := EntryOf(mem, r, c).value]
      ensures !t.Parsed? ==> View() == old(View())
      ensures old(Len()) <= Len() <= old(Len()) + 1
    {
      hide EntryIn, BytesIn, T.Table.View, T.Table.Valid;
      var n := LengthPrefix(mem, r.start, r.end);
      var e := ParseEntry(mem, n.ptr, n.ptr + n.value, c.key, c.value, c.lenient, c.skip);
      if e.Refused? {
        return InvalidText;
      }
      var panics := Put(e.key, e.value, seed);
      t := if panics then Panics else Step.Parsed(n.ptr + n.value);
    }

    lemma NoTable()
      requires Valid() && table == null
      ensures Repr() == {} && View() == map[]
    {
    }

    /**
     A run of records, up to one with text that is not UTF-8 or one entry too many for any table: whatever the seeds,
     and however often the table grows, the last value of each key stays.
     */
    method ParseAll(mem: seq<byte>, records: seq<Record>, c: Codec, seeds: nat -> (X -> word))
      returns (done: nat, why: Step)
      requires Valid() && table == null && preload <= P.MAX_ENTRIES
      requires forall i :: 0 <= i < |records| ==> !EntryOf(mem, records[i], c).Broken?
      modifies this
      ensures Valid() && done <= |records| && forall i :: 0 <= i < done ==> EntryOf(mem, records[i], c).Entry?
      ensures View() == LastWins(extract, mem, records[..done], c)
      ensures done < |records| ==>
              (why.InvalidText? && EntryOf(mem, records[done], c).Refused?) || (why.Panics? && |View()| > P.MAX_ENTRIES)
    {
      hide T.Table.View, T.Table.Valid, T.Table.Shape, EntryOf, LastWins, BytesIn, View, Valid;
      NoTable();
      LastWinsNone(extract, mem, c);
      assert records[..0] == [];
      done, why := 0, Step.Parsed(0);
      while done < |records|
        invariant Valid() && fresh(Repr()) && done <= |records|
        invariant forall i :: 0 <= i < done ==> EntryOf(mem, records[i], c).Entry?
        invariant View() == LastWins(extract, mem, records[..done], c)
        decreases |records| - done
      {
        NotFull();
        why := ParseRecord(mem, records[done], c, seeds(done));
        if !why.Parsed? {
          return;
        }
        LastWinsNext(extract, mem, records, c, done);
        done := done + 1;
      }
    }
  }
}
