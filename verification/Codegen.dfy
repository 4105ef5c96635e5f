/** The parser tables that the compiler emits for a type (internal/tdp/compiler/compile.go, codegen and writeLUT). */
module Codegen {
  import opened VmSpec
  import opened S = Schedule
  import Base128
  import Tag
  import opened Wrappers

  /** The tag a parser expects. */
  function Key(ts: seq<Field>, t: nat, a: nat): nat
    requires t < |ts| && a < |ts[t].parsers|
  {
    ts[t].number * 8 + ts[t].parsers[a].kind
  }

  ghost predicate ParserOk(types: nat, p: Parser) {
    p.kind in {0, 1, 2, 5} && ThunkOk(types, p.thunk, p.kind)
  }

  /** Field numbers are in range, and parsers expect neither groups nor unknown types. */
  ghost predicate FieldsOk(types: nat, ts: seq<Field>) {
    forall t :: 0 <= t < |ts| ==>
      1 <= ts[t].number < 0x2000_0000 && forall a :: 0 <= a < |ts[t].parsers| ==> ParserOk(types, ts[t].parsers[a])
  }

  /** No two parsers expect the same tag. */
  ghost predicate TagsDistinct(ts: seq<Field>) {
    forall t, a, u, b | 0 <= t < |ts| && 0 <= a < |ts[t].parsers| && 0 <= u < |ts| && 0 <= b < |ts[u].parsers| ::
      Key(ts, t, a) == Key(ts, u, b) ==> t == u && a == b
  }

  // ----- The table for one-byte tags -----

  /** int32(v). */
  function Int32(v: nat): int {
    var w := v % 0x1_0000_0000;
    if w < 0x8000_0000 then w else w - 0x1_0000_0000
  }

  /** The last entry for a key, if its value fits in a byte. */
  function LastFor(entries: seq<(int, nat)>, k: nat): nat {
    if entries == [] then NO_PARSER
    else
      var e := entries[|entries| - 1];
      if e.0 == k && e.1 <= 0xff then e.1 else LastFor(entries[..|entries| - 1], k)
  }

  method WriteLUT(lut: array<nat>, entries: seq<(int, nat)>)
    requires lut.Length == 128
    modifies lut
    ensures forall k :: 0 <= k < 128 ==> lut[k] == LastFor(entries, k)
  {
    for i := 0 to 128
      invariant forall k :: 0 <= k < i ==> lut[k] == NO_PARSER
    {
      lut[i] := NO_PARSER;
    }
    for i := 0 to |entries|
      invariant forall k :: 0 <= k < 128 ==> lut[k] == LastFor(entries[..i], k)
    {
      assert entries[..i + 1][..i] == entries[..i];
      var e := entries[i];
      if 0 <= e.0 < 128 && e.1 <= 0xff {
        lut[e.0] := e.1;
      }
    }
    assert entries[..|entries|] == entries;
  }

  lemma {:induction false} LastForEntry(entries: seq<(int, nat)>, k: nat)
    ensures LastFor(entries, k) != NO_PARSER ==> (k, LastFor(entries, k)) in entries
    ensures forall v :: (k, v) in entries && v < NO_PARSER && (forall w :: (k, w) in entries ==> w == v) ==>
            LastFor(entries, k) == v
  {
    if entries != [] {
      var shorter, e := entries[..|entries| - 1], entries[|entries| - 1];
      LastForEntry(shorter, k);
      assert entries == shorter + [e];
    }
  }

  // ----- The tables of a type -----

  /** The only parser of a type without fields. */
  const PLACEHOLDER := FieldParser(0, UNMATCHED, 0, 0, Flag(0, None))

  /** The parser table: each parser in the schedule's order, and the tag that leads to it. */
  ghost predicate Emitted(ts: seq<Field>, ps: seq<Scheduled>, fields: seq<FieldParser>, entries: seq<(int, nat)>,
                          tags: map<nat, nat>)
  {
    var n := |fields|;
    && |entries| == n <= |ps|
    && (forall i :: 0 <= i < n ==>
          && Belongs(ts, ps[i])
          && var key, p := Key(ts, ps[i].tIdx, ps[i].aIdx), ts[ps[i].tIdx].parsers[ps[i].aIdx];
          && fields[i] == FieldParser(key, Tag.EncodeTag(ts[ps[i].tIdx].number, p.kind), ps[i].next,
                                      if i + 1 == |ps| then 0 else i + 1, p.thunk)
          && entries[i] == (Int32(key), i)
          && key in tags && tags[key] >= i)
    && (forall v :: v in tags ==>
       tags[v] < n && Belongs(ts, ps[tags[v]]) && Key(ts, ps[tags[v]].tIdx, ps[tags[v]].aIdx) == v)
  }

  /** The NextErr links form one ring over all parsers. */
  ghost predicate Ring(fields: seq<FieldParser>) {
    forall i :: 0 <= i < |fields| ==> fields[i].nextErr == if i + 1 == |fields| then 0 else i + 1
  }

  /**
   The parser tables of a type. They agree with one another, as the parser needs, if and only if no two of its
   parsers expect the same tag.
   */
  method Codegen(types: nat, ts: seq<Field>, ps: seq<Scheduled>) returns (t: TypeParser)
    requires FieldsOk(types, ts) && HotFirst(ts, ps) && forall i :: 0 <= i < |ps| ==> ps[i].next < |ps|
    ensures TypeOk(types, t) <==> TagsDistinct(ts)
    ensures |t.fields| == (if ps == [] then 1 else |ps|) && Ring(t.fields) && t.entry == 0 && !t.discardUnknown
    ensures forall i :: 0 <= i < |ps| ==> Belongs(ts, ps[i])
    ensures forall i :: 0 <= i < |ps| ==>
              && t.fields[i].number == Key(ts, ps[i].tIdx, ps[i].aIdx) && t.fields[i].nextOk == ps[i].next
              && t.fields[i].thunk == ts[ps[i].tIdx].parsers[ps[i].aIdx].thunk
    ensures TypeOk(types, t) ==> forall k :: k in t.tags && k < 128 && t.tags[k] < NO_PARSER ==> t.lut[k] == t.tags[k]
  {
    hide HotFirst, FieldsOk, TagsDistinct, LastFor, Int32, Tag.EncodeTag, Key;
    forall i | 0 <= i < |ps|
      ensures Belongs(ts, ps[i])
    {
      BelongsAt(ts, ps, i);
    }
    var fields: seq<FieldParser>, entries: seq<(int, nat)>, tags: map<nat, nat> := [], [], map[];
    for i := 0 to |ps|
      invariant |fields| == i && Emitted(ts, ps, fields, entries, tags)
    {
      var f := ts[ps[i].tIdx];
      var p := f.parsers[ps[i].aIdx];
      var key := Key(ts, ps[i].tIdx, ps[i].aIdx);
      entries := entries + [(Int32(key), i)];
      tags := tags[key := i];
      var nextErr := i + 1;
      if nextErr == |ps| {
        nextErr := 0;
      }
      fields := fields + [FieldParser(key, Tag.EncodeTag(f.number, p.kind), ps[i].next, nextErr, p.thunk)];
    }
    var lut := new nat[128];
    WriteLUT(lut, entries);
    if |ps| == 0 {
      t := TypeParser([PLACEHOLDER], lut[..], tags, 0, false);
      NoParsers(types, ts, ps, t);
    } else {
      t := TypeParser(fields, lut[..], tags, 0, false);
      TablesAgree(types, ts, ps, t, entries);
    }
  }

  lemma NoParsers(types: nat, ts: seq<Field>, ps: seq<Scheduled>, t: TypeParser)
    requires HotFirst(ts, ps) && ps == [] && t.fields == [PLACEHOLDER]
    requires t.entry == 0 && |t.lut| == 128 && (forall k :: 0 <= k < 128 ==> t.lut[k] == LastFor([], k))
    requires t.tags == map[]
    ensures TypeOk(types, t) && TagsDistinct(ts)
  {
    forall u | 0 <= u < |ts|
      ensures |ts[u].parsers| == 0
    {
      if |ts[u].parsers| > 0 {
        var _ := At(ts, ps, u, 0);
      }
    }
  }

  lemma TablesAgree(types: nat, ts: seq<Field>, ps: seq<Scheduled>, t: TypeParser, entries: seq<(int, nat)>)
    requires FieldsOk(types, ts) && HotFirst(ts, ps) && ps != [] && forall i :: 0 <= i < |ps| ==> ps[i].next < |ps|
    requires forall i :: 0 <= i < |ps| ==> Belongs(ts, ps[i])
    requires |t.fields| == |ps| && Emitted(ts, ps, t.fields, entries, t.tags)
    requires t.entry == 0 && |t.lut| == 128 && (forall k :: 0 <= k < 128 ==> t.lut[k] == LastFor(entries, k))
    ensures TypeOk(types, t) <==> TagsDistinct(ts)
    ensures TypeOk(types, t) ==> forall k :: k in t.tags && k < 128 && t.tags[k] < NO_PARSER ==> t.lut[k] == t.tags[k]
  {
    hide HotFirst, FieldsOk, TagsDistinct, LastFor, Emitted, TypeOk;
    if TagsDistinct(ts) {
      DistinctAgree(types, ts, ps, t, entries);
    }
    if TypeOk(types, t) {
      AgreeDistinct(types, ts, ps, t, entries);
    }
  }

  lemma KeyBounds(types: nat, ts: seq<Field>, t: nat, a: nat)
    requires FieldsOk(types, ts) && t < |ts| && a < |ts[t].parsers|
    ensures 8 <= Key(ts, t, a) < 0x1_0000_0000 && Key(ts, t, a) % 8 == ts[t].parsers[a].kind
    ensures ParserOk(types, ts[t].parsers[a])
    ensures Tag.EncodeTag(ts[t].number, ts[t].parsers[a].kind) == Tag.Spread(Key(ts, t, a))
  {
    hide Tag.Spread, Tag.SpreadBytes, Base128.Encode, Base128.Value;
    assert ParserOk(types, ts[t].parsers[a]);
    Base128.EncodeExact(Key(ts, t, a));
    Tag.SpreadValue(Base128.Encode(Key(ts, t, a)));
  }

  lemma DistinctAt(ts: seq<Field>, ps: seq<Scheduled>, i: nat, j: nat)
    requires HotFirst(ts, ps) && TagsDistinct(ts) && i < |ps| && j < |ps|
    requires Belongs(ts, ps[i]) && Belongs(ts, ps[j])
    requires Key(ts, ps[i].tIdx, ps[i].aIdx) == Key(ts, ps[j].tIdx, ps[j].aIdx)
    ensures i == j
  {
    hide Key;
  }

  lemma DistinctAgree(types: nat, ts: seq<Field>, ps: seq<Scheduled>, t: TypeParser, entries: seq<(int, nat)>)
    requires FieldsOk(types, ts) && HotFirst(ts, ps) && ps != [] && forall i :: 0 <= i < |ps| ==> ps[i].next < |ps|
    requires forall i :: 0 <= i < |ps| ==> Belongs(ts, ps[i])
    requires |t.fields| == |ps| && Emitted(ts, ps, t.fields, entries, t.tags) && TagsDistinct(ts)
    requires t.entry == 0 && |t.lut| == 128 && (forall k :: 0 <= k < 128 ==> t.lut[k] == LastFor(entries, k))
    ensures TypeOk(types, t)
  {
    hide HotFirst, FieldsOk, TagsDistinct, LastFor, Tag.EncodeTag, Tag.Spread, Key, Int32;
    forall i | 0 <= i < |t.fields|
      ensures FieldOk(types, t.fields[i], |t.fields|) && t.tags[t.fields[i].number] == i && t.fields[i].tag != UNMATCHED
    {
      KeyBounds(types, ts, ps[i].tIdx, ps[i].aIdx);
      SpreadMatches(t.fields[i].number);
      DistinctAt(ts, ps, i, t.tags[t.fields[i].number]);
    }
    forall k | 0 <= k < 128 && t.lut[k] != NO_PARSER
      ensures k in t.tags && t.tags[k] == t.lut[k]
    {
      LastForEntry(entries, k);
      var i :| 0 <= i < |entries| && entries[i] == (k, t.lut[k]);
      KeyBounds(types, ts, ps[i].tIdx, ps[i].aIdx);
      Int32Small(Key(ts, ps[i].tIdx, ps[i].aIdx));
    }
  }

  /** No tag is the placeholder's. */
  lemma SpreadMatches(number: nat)
    requires number < 0x1_0000_0000
    ensures Tag.Spread(number) != UNMATCHED
  {
    hide Tag.Spread;
    Tag.OverflowsExact(number);
    Tag.BitLenAbove(Tag.Spread(number), 36);
    Tag.Pow2At35();
  }

  lemma Int32Small(key: nat)
    requires key < 0x1_0000_0000
    ensures 0 <= Int32(key) < 128 ==> Int32(key) == key
    ensures key < 128 ==> Int32(key) == key
  {
  }

  lemma AgreeDistinct(types: nat, ts: seq<Field>, ps: seq<Scheduled>, t: TypeParser, entries: seq<(int, nat)>)
    requires FieldsOk(types, ts) && HotFirst(ts, ps) && |t.fields| == |ps|
    requires forall i :: 0 <= i < |ps| ==> Belongs(ts, ps[i])
    requires Emitted(ts, ps, t.fields, entries, t.tags) && TypeOk(types, t)
    requires |t.lut| == 128 && (forall k :: 0 <= k < 128 ==> t.lut[k] == LastFor(entries, k))
    ensures TagsDistinct(ts)
    ensures forall k :: k in t.tags && k < 128 && t.tags[k] < NO_PARSER ==> t.lut[k] == t.tags[k]
  {
    hide LastFor, FieldsOk, Tag.EncodeTag, Tag.Spread, Key, Int32, Has;
    forall u, a, v, b | 0 <= u < |ts| && 0 <= a < |ts[u].parsers| && 0 <= v < |ts| && 0 <= b < |ts[v].parsers|
                        && Key(ts, u, a) == Key(ts, v, b)
      ensures u == v && a == b
    {
      var i := At(ts, ps, u, a);
      var j := At(ts, ps, v, b);
      NumberAt(types, ts, ps, t, entries, i);
      NumberAt(types, ts, ps, t, entries, j);
    }
    forall k | k in t.tags && k < 128 && t.tags[k] < NO_PARSER
      ensures t.lut[k] == t.tags[k]
    {
      var n := t.tags[k];
      Int32Small(k);
      assert entries[n] == (k, n);
      forall w | (k, w) in entries
        ensures w == n
      {
        var i :| 0 <= i < |entries| && entries[i] == (k, w);
        KeyBounds(types, ts, ps[i].tIdx, ps[i].aIdx);
        Int32Small(Key(ts, ps[i].tIdx, ps[i].aIdx));
        NumberAt(types, ts, ps, t, entries, i);
      }
      LastForEntry(entries, k);
    }
  }

  lemma At(ts: seq<Field>, ps: seq<Scheduled>, u: nat, a: nat) returns (i: nat)
    requires HotFirst(ts, ps) && u < |ts| && a < |ts[u].parsers|
    ensures i < |ps| && ps[i].tIdx == u && ps[i].aIdx == a
  {
    assert Has(ps, u, a);
    i :| 0 <= i < |ps| && ps[i].tIdx == u && ps[i].aIdx == a;
  }

  lemma NumberAt(types: nat, ts: seq<Field>, ps: seq<Scheduled>, t: TypeParser, entries: seq<(int, nat)>, i: nat)
    requires FieldsOk(types, ts) && |t.fields| == |ps| && i < |ps|
    requires forall i :: 0 <= i < |ps| ==> Belongs(ts, ps[i])
    requires Emitted(ts, ps, t.fields, entries, t.tags) && TypeOk(types, t)
    ensures Key(ts, ps[i].tIdx, ps[i].aIdx) in t.tags && t.tags[Key(ts, ps[i].tIdx, ps[i].aIdx)] == i
  {
    hide FieldsOk, Tag.EncodeTag, Tag.Spread, Key, Int32;
    KeyBounds(types, ts, ps[i].tIdx, ps[i].aIdx);
    SpreadMatches(t.fields[i].number);
  }

  /** The compiler's steps from the fields of a type to its parser tables. */
  method Compile(types: nat, ts: seq<Field>) returns (t: TypeParser)
    requires FieldsOk(types, ts)
    ensures TypeOk(types, t) <==> TagsDistinct(ts)
    ensures Ring(t.fields) && t.fields != [] && t.entry == 0
    ensures forall u, a | 0 <= u < |ts| && 0 <= a < |ts[u].parsers| ::
              Key(ts, u, a) in Numbers(t) && ts[u].parsers[a].thunk in Thunks(t, Key(ts, u, a))
  {
    hide HotFirst, FieldsOk, TagsDistinct, LeadsTo, TypeOk, Key, Ring;
    var ps := S.Schedule(ts);
    t := Codegen(types, ts, ps);
    forall u, a | 0 <= u < |ts| && 0 <= a < |ts[u].parsers|
      ensures Key(ts, u, a) in Numbers(t) && ts[u].parsers[a].thunk in Thunks(t, Key(ts, u, a))
    {
      var i := At(ts, ps, u, a);
      assert t.fields[i].number == Key(ts, u, a);
    }
  }

  /** The tags that the parsers of a type expect. */
  function Numbers(t: TypeParser): set<nat> {
    set i | 0 <= i < |t.fields| :: t.fields[i].number
  }

  /** What is run for a tag. */
  function Thunks(t: TypeParser, number: nat): set<Thunk> {
    set i | 0 <= i < |t.fields| && t.fields[i].number == number :: t.fields[i].thunk
  }

  // ----- The NextErr ring -----

  /** The parser reached from i by following NextErr n times. */
  function Chase(fields: seq<FieldParser>, i: nat, n: nat): (r: nat)
    requires i < |fields| && forall k :: 0 <= k < |fields| ==> fields[k].nextErr < |fields|
    ensures r < |fields|
  {
    if n == 0 then i else fields[Chase(fields, i, n - 1)].nextErr
  }

  lemma {:induction false} ChaseExact(fields: seq<FieldParser>, i: nat, n: nat)
    requires Ring(fields) && i < |fields| && n <= |fields|
    ensures Chase(fields, i, n) == if i + n < |fields| then i + n else i + n - |fields|
  {
    if n > 0 {
      ChaseExact(fields, i, n - 1);
    }
  }

  /** From any parser, NextErr reaches each parser in fewer steps than there are parsers, and then comes back. */
  lemma RingCovers(fields: seq<FieldParser>, i: nat, j: nat) returns (n: nat)
    requires Ring(fields) && i < |fields| && j < |fields|
    ensures n < |fields| && Chase(fields, i, n) == j
    ensures forall m :: 0 <= m < |fields| && Chase(fields, i, m) == j ==> m == n
    ensures Chase(fields, i, |fields|) == i
  {
    n := if i <= j then j - i else j + |fields| - i;
    ChaseExact(fields, i, n);
    ChaseExact(fields, i, |fields|);
    forall m | 0 <= m < |fields| && Chase(fields, i, m) == j
      ensures m == n
    {
      ChaseExact(fields, i, m);
    }
  }
}
