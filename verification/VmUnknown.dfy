/** The unknown ranges that a parse stores with each message (internal/tdp/vm/run.go, handleUnknown). */
module VmUnknown {
  import opened Base128
  import opened Words
  import opened VmSpec
  import opened Wire

  /** A stored byte range of the input. */
  datatype Range = Range(start: nat, end: nat)

  /** Stores a range, joining it to the last one when it starts where that one ends. */
  function AddRange(rs: seq<Range>, start: nat, end: nat): seq<Range> {
    if rs != [] && rs[|rs| - 1].end == start then rs[..|rs| - 1] + [Range(rs[|rs| - 1].start, end)]
    else rs + [Range(start, end)]
  }

  /** What is stored for message m after the given steps. */
  function StoredFor(events: seq<Event>, m: nat): seq<Range> {
    if events == [] then []
    else
      var rs := StoredFor(events[..|events| - 1], m);
      var e := events[|events| - 1];
      if e.Unknown? && e.msg == m then AddRange(rs, e.start, e.end) else rs
  }

  lemma StoredEmit(out: Out, e: Event, m: nat)
    ensures StoredFor(Emit(out, e).events, m) ==
            if e.Unknown? && e.msg == m then AddRange(StoredFor(out.events, m), e.start, e.end)
              else StoredFor(out.events, m)
  {
    assert Emit(out, e).events[..|out.events|] == out.events;
  }

  lemma StoredEnter(types: nat, byWhich: bool, out: Out, msg: nat, field: nat, t: Thunk, start: nat, end: nat, m: nat)
    requires IsMessage(t) && t.ty < types
    ensures StoredFor(EnterSub(types, byWhich, out, msg, field, t, start, end).out.events, m) ==
            StoredFor(out.events, m)
  {
    assert EnterSub(types, byWhich, out, msg, field, t, start, end).out.events[..|out.events|] == out.events;
  }

  // ----- Order -----

  /** Unknown records appear in stream order, are not empty, and end by p. */
  ghost predicate UnknownsUpTo(events: seq<Event>, p: nat) {
    && (forall i :: 0 <= i < |events| && events[i].Unknown? ==> events[i].start < events[i].end <= p)
    && (forall i, j :: 0 <= i < j < |events| && events[i].Unknown? && events[j].Unknown? ==>
       events[i].end <= events[j].start)
  }

  /** Every parse meets unknown records in stream order. */
  lemma {:induction false} WalkInOrder(env: Env, lo: nat, hi: nat, ty: nat, msg: nat, depth: nat, out: Out)
    requires TypesOk(env.types) && ty < |env.types| && lo <= hi && hi + PADDING <= |env.mem|
    requires UnknownsUpTo(out.events, lo)
    requires Walk(env, lo, hi, ty, msg, depth, out).Done?
    ensures UnknownsUpTo(Walk(env, lo, hi, ty, msg, depth, out).out.events, hi)
    decreases hi - lo, 0
  {
    hide TypesOk, TagIn, UnknownsUpTo, WalkRecord;
    if lo < hi {
      var t := TagIn(env.mem, lo, hi).value;
      RecordInOrder(env, lo, t.0, t.1, hi, ty, msg, depth, out);
    }
  }

  lemma {:induction false} RecordInOrder(env: Env, lo: nat, tag: nat, p: nat, hi: nat, ty: nat, msg: nat, depth: nat,
                                         out: Out)
    requires TypesOk(env.types) && ty < |env.types| && lo < p <= hi && hi + PADDING <= |env.mem|
    requires UnknownsUpTo(out.events, lo)
    requires WalkRecord(env, lo, tag, p, hi, ty, msg, depth, out).Done?
    ensures UnknownsUpTo(WalkRecord(env, lo, tag, p, hi, ty, msg, depth, out).out.events, hi)
    decreases hi - p, 2
  {
    hide TypesOk, BytesIn, BodyEnd, UnknownsUpTo, FieldOut, UnknownOut, KnownIn, Walk, WalkSub;
    if tag !in env.types[ty].tags {
      var z := BodyEnd(env.mem, p, hi, tag, env.maxDepth).value;
      UnknownInOrder(env, ty, msg, lo, z, out);
      WalkInOrder(env, z, hi, ty, msg, depth, UnknownOut(env, ty, msg, lo, z, out));
    } else {
      KnownField(env.types, ty, tag);
      var i := env.types[ty].tags[tag];
      var t := env.types[ty].fields[i].thunk;
      if IsMessage(t) {
        var (s, z) := BytesIn(env.mem, p, hi).value;
        SubInOrder(env, s, z, hi, ty, msg, i, depth, lo, out);
      } else {
        var r := KnownIn(env, t, tag % 8, p, hi);
        FieldInOrder(out, msg, i, t, p, r.end, r.value, lo);
        WalkInOrder(env, r.end, hi, ty, msg, depth, FieldOut(out, msg, i, t, p, r.end, r.value));
      }
    }
  }

  lemma {:induction false} SubInOrder(env: Env, s: nat, z: nat, hi: nat, ty: nat, msg: nat, i: nat, depth: nat, lo: nat,
                                      out: Out)
    requires TypesOk(env.types) && MessageField(env.types, ty, i)
    requires lo <= s <= z <= hi && hi + PADDING <= |env.mem| && UnknownsUpTo(out.events, lo)
    requires WalkSub(env, s, z, hi, ty, msg, i, depth, out).Done?
    ensures UnknownsUpTo(WalkSub(env, s, z, hi, ty, msg, i, depth, out).out.events, hi)
    decreases hi - s, 1
  {
    hide TypesOk, UnknownsUpTo, EnterSub, Walk;
    var t := env.types[ty].fields[i].thunk;
    var e := EnterSub(|env.types|, env.byWhich, out, msg, i, t, s, z);
    EnterInOrder(|env.types|, env.byWhich, out, msg, i, t, s, z, lo);
    if s == z {
      WalkInOrder(env, z, hi, ty, msg, depth, e.out);
    } else {
      var below := Below(env, z, hi, depth);
      WalkInOrder(env, s, z, e.ty, e.sub, below, e.out);
      WalkInOrder(env, z, hi, ty, msg, depth, Walk(env, s, z, e.ty, e.sub, below, e.out).out);
    }
  }

  lemma NextInOrder(events: seq<Event>, e: Event, p: nat, q: nat)
    requires UnknownsUpTo(events, p) && p <= q && (e.Unknown? ==> p <= e.start < e.end <= q)
    ensures UnknownsUpTo(events + [e], q)
  {
  }

  lemma EnterInOrder(types: nat, byWhich: bool, out: Out, msg: nat, field: nat, t: Thunk, start: nat, end: nat, p: nat)
    requires IsMessage(t) && t.ty < types && UnknownsUpTo(out.events, p) && p <= start
    ensures UnknownsUpTo(EnterSub(types, byWhich, out, msg, field, t, start, end).out.events, start)
  {
    hide UnknownsUpTo;
    var events := EnterSub(types, byWhich, out, msg, field, t, start, end).out.events;
    NextInOrder(out.events, events[|out.events|], p, start);
  }

  lemma FieldInOrder(out: Out, msg: nat, field: nat, t: Thunk, p: nat, z: nat, c: Content, lo: nat)
    requires lo <= p <= z && UnknownsUpTo(out.events, lo)
    ensures UnknownsUpTo(FieldOut(out, msg, field, t, p, z, c).events, z)
  {
    hide UnknownsUpTo, Stored;
    StoredCells(out, msg, field, t, c);
    NextInOrder(out.events, Known(msg, field, p, z, c), lo, z);
  }

  lemma UnknownInOrder(env: Env, ty: nat, msg: nat, lo: nat, z: nat, out: Out)
    requires ty < |env.types| && lo < z && UnknownsUpTo(out.events, lo)
    ensures UnknownsUpTo(UnknownOut(env, ty, msg, lo, z, out).events, z)
  {
  }

  /** Nonempty ranges that end by p, increasing, disjoint and never adjacent. */
  ghost predicate Separated(rs: seq<Range>, p: nat) {
    && (forall i :: 0 <= i < |rs| ==> rs[i].start < rs[i].end <= p)
    && (forall i, j :: 0 <= i < j < |rs| ==> rs[i].end < rs[j].start)
  }

  lemma AddRangeSeparated(rs: seq<Range>, start: nat, end: nat)
    requires Separated(rs, start) && start < end
    ensures Separated(AddRange(rs, start, end), end)
  {
  }

  lemma UnknownsBefore(events: seq<Event>, p: nat)
    requires UnknownsUpTo(events, p) && events != []
    ensures var e := events[|events| - 1];
            UnknownsUpTo(events[..|events| - 1], if e.Unknown? then e.start else p)
              && (e.Unknown? ==> e.start < e.end <= p)
  {
  }

  /** What is stored for a message is increasing, disjoint and never adjacent. */
  lemma {:induction false} StoredIsSeparated(events: seq<Event>, m: nat, p: nat)
    requires UnknownsUpTo(events, p)
    ensures Separated(StoredFor(events, m), p)
  {
    hide AddRange, UnknownsUpTo;
    if events != [] {
      var before, e := events[..|events| - 1], events[|events| - 1];
      UnknownsBefore(events, p);
      StoredIsSeparated(before, m, if e.Unknown? then e.start else p);
      if e.Unknown? && e.msg == m {
        AddRangeSeparated(StoredFor(before, m), e.start, e.end);
      }
    }
  }

  // ----- Contents -----

  /** The bytes of a list of ranges, one after another. */
  function BytesOf(mem: seq<byte>, rs: seq<Range>): seq<byte> {
    if rs == [] then []
    else
      var r := rs[|rs| - 1];
      BytesOf(mem, rs[..|rs| - 1]) + (if r.start <= r.end <= |mem| then mem[r.start..r.end] else [])
  }

  /** The bytes of the unknown records of message m, in stream order. */
  function UnknownBytes(mem: seq<byte>, events: seq<Event>, m: nat): seq<byte> {
    if events == [] then []
    else
      var e := events[|events| - 1];
      UnknownBytes(mem, events[..|events| - 1], m)
      + (if e.Unknown? && e.msg == m && e.start <= e.end <= |mem| then mem[e.start..e.end] else [])
  }

  lemma BytesNext(mem: seq<byte>, rs: seq<Range>, start: nat, end: nat)
    requires start <= end <= |mem|
    ensures BytesOf(mem, rs + [Range(start, end)]) == BytesOf(mem, rs) + mem[start..end]
  {
    assert (rs + [Range(start, end)])[..|rs|] == rs;
  }

  lemma AddRangeBytes(mem: seq<byte>, rs: seq<Range>, start: nat, end: nat)
    requires start <= end <= |mem|
    requires rs != [] ==> rs[|rs| - 1].start <= rs[|rs| - 1].end
    ensures BytesOf(mem, AddRange(rs, start, end)) == BytesOf(mem, rs) + mem[start..end]
  {
    hide BytesOf;
    if rs != [] && rs[|rs| - 1].end == start {
      var before, r := rs[..|rs| - 1], rs[|rs| - 1];
      BytesNext(mem, before, r.start, r.end);
      BytesNext(mem, before, r.start, end);
      assert rs == before + [Range(r.start, r.end)];
      assert mem[r.start..end] == mem[r.start..start] + mem[start..end];
    } else {
      BytesNext(mem, rs, start, end);
    }
  }

  /** Joining adjacent ranges loses nothing: the stored bytes are the unknown records' bytes in stream order. */
  lemma {:induction false} StoredKeepsBytes(mem: seq<byte>, events: seq<Event>, m: nat, p: nat)
    requires UnknownsUpTo(events, p) && p <= |mem|
    ensures BytesOf(mem, StoredFor(events, m)) == UnknownBytes(mem, events, m)
  {
    hide AddRange;
    if events != [] {
      var before, e := events[..|events| - 1], events[|events| - 1];
      assert UnknownsUpTo(before, p);
      StoredKeepsBytes(mem, before, m, p);
      StoredIsSeparated(before, m, p);
      if e.Unknown? && e.msg == m {
        AddRangeBytes(mem, StoredFor(before, m), e.start, e.end);
      }
    }
  }

  /**
   After a whole parse, the ranges stored for a message are increasing, disjoint and not adjacent, and their bytes
   are those of its unknown records in stream order.
   */
  lemma UnknownOfParse(env: Env, len: nat, ty: nat, depth: nat, m: nat)
    requires TypesOk(env.types) && ty < |env.types| && len + PADDING <= |env.mem|
    requires Walk(env, 0, len, ty, 0, depth, Start(ty)).Done?
    ensures var events := Walk(env, 0, len, ty, 0, depth, Start(ty)).out.events;
            && Separated(StoredFor(events, m), len)
            && BytesOf(env.mem, StoredFor(events, m)) == UnknownBytes(env.mem, events, m)
  {
    hide Walk, TypesOk, StoredFor;
    WalkInOrder(env, 0, len, ty, 0, depth, Start(ty));
    var events := Walk(env, 0, len, ty, 0, depth, Start(ty)).out.events;
    StoredIsSeparated(events, m, len);
    StoredKeepsBytes(env.mem, events, m, len);
  }
}
