/**
 When the parser finds the right submessage: the slots of message fields that share their storage with other fields,
 as the members of a oneof do (internal/tdp/thunks/oneof.go and singular.go).
 */
module VmSlots {
  import opened Base128
  import opened Values
  import opened VmSpec
  import opened Wire
  import opened Words
  import opened Wrappers
  import L = Layout
  import Tag
  import Utf8

  // ----- The types of messages -----

  ghost predicate KindsOk(types: nat, out: Out) {
    forall k :: 0 <= k < |out.kinds| ==> out.kinds[k] < types
  }

  lemma EnterKinds(types: nat, byWhich: bool, out: Out, msg: nat, field: nat, t: Thunk, start: nat, end: nat)
    requires IsMessage(t) && t.ty < types && KindsOk(types, out)
    ensures KindsOk(types, EnterSub(types, byWhich, out, msg, field, t, start, end).out)
  {
  }

  // ----- Shared slots -----

  /** A field parser that some tag leads to. */
  predicate Reachable(f: FieldParser) {
    f.tag != UNMATCHED && f.number >= 8
  }

  /** Two field parsers that use one slot, the second as the address of a message. */
  predicate Shares(t: TypeParser, i: nat, j: nat)
    requires i < |t.fields| && j < |t.fields|
  {
    var a, b := t.fields[i].thunk, t.fields[j].thunk;
    i != j && (a.Store? || a.Message?) && b.Message? && a.slot == b.slot
    && Reachable(t.fields[i]) && Reachable(t.fields[j])
  }

  /** Field parser k stores at the offset that the layout gave to field owner[k]. */
  ghost predicate StoresAt(ts: seq<L.Field>, r: L.Struct, t: TypeParser, owner: seq<nat>, k: nat)
    requires k < |t.fields| && |owner| == |t.fields| && |r.offsets| == |ts|
  {
    var f := t.fields[k].thunk;
    f.Store? || f.Message? ==>
      owner[k] < |ts| && ts[owner[k]].align > 0 && ts[owner[k]].size > 0 && f.slot == r.offsets[owner[k]].data
  }

  /** The layout lets field parsers share a slot if and only if they are of one field or of members of one oneof. */
  lemma SharedByOneof(ts: seq<L.Field>, r: L.Struct, t: TypeParser, owner: seq<nat>, i: nat, j: nat)
    requires L.Sound(ts, r) && |owner| == |t.fields| && i < |t.fields| && j < |t.fields|
    requires StoresAt(ts, r, t, owner, i) && StoresAt(ts, r, t, owner, j)
    ensures Shares(t, i, j) <==>
            && i != j && (t.fields[i].thunk.Store? || t.fields[i].thunk.Message?) && t.fields[j].thunk.Message?
            && Reachable(t.fields[i]) && Reachable(t.fields[j])
            && L.Same(ts, owner[i], owner[j])
  {
    hide L.Stored;
    var a, b := t.fields[i].thunk, t.fields[j].thunk;
    if (a.Store? || a.Message?) && b.Message? {
      assert L.Disjoint(ts, r, owner[i], owner[j]);
    }
  }

  /** No message field shares its slot: no oneof of two or more members has a message among them. */
  ghost predicate NoneShared(types: seq<TypeParser>) {
    forall ty, i, j | 0 <= ty < |types| && 0 <= i < |types[ty].fields| && 0 <= j < |types[ty].fields| ::
      !Shares(types[ty], i, j)
  }

  /**
   The slot of message field i, if it was used, was used by that field, and leads to a message of the field's type.
   */
  ghost predicate SlotOwned(types: seq<TypeParser>, out: Out, m: nat, i: nat)
    requires m < |out.kinds| && out.kinds[m] < |types| && i < |types[out.kinds[m]].fields|
  {
    var t := types[out.kinds[m]].fields[i].thunk;
    t.Message? && Reachable(types[out.kinds[m]].fields[i]) ==>
      var key := (m, t.slot);
      var c := CellAt(out, key);
      if key in out.which then
        out.which[key] == i && c.width == 0 && c.under.Some? && c.under.value < |out.kinds|
        && out.kinds[c.under.value] == t.ty
      else c == ZERO
  }

  ghost predicate Owned(types: seq<TypeParser>, out: Out) {
    && KindsOk(|types|, out)
    && (forall m, i :: 0 <= m < |out.kinds| && 0 <= i < |types[out.kinds[m]].fields| ==> SlotOwned(types, out, m, i))
    && (forall key :: key in out.cells || key in out.which ==> key.0 < |out.kinds|)
  }

  lemma EmitOwned(types: seq<TypeParser>, out: Out, e: Event)
    requires Owned(types, out)
    ensures Owned(types, Emit(out, e))
  {
    hide IsMessage;
    var out1 := Emit(out, e);
    forall m, i | 0 <= m < |out1.kinds| && 0 <= i < |types[out1.kinds[m]].fields|
      ensures SlotOwned(types, out1, m, i)
    {
      assert SlotOwned(types, out, m, i);
    }
  }

  lemma FieldOwned(types: seq<TypeParser>, out: Out, msg: nat, i: nat, p: nat, z: nat, c: Content)
    requires NoneShared(types) && Owned(types, out) && msg < |out.kinds| && i < |types[out.kinds[msg]].fields|
    requires Reachable(types[out.kinds[msg]].fields[i]) && !IsMessage(types[out.kinds[msg]].fields[i].thunk)
    ensures Owned(types, FieldOut(out, msg, i, types[out.kinds[msg]].fields[i].thunk, p, z, c))
  {
    hide StoreNumber, NoneShared, Stored;
    var t := types[out.kinds[msg]].fields[i].thunk;
    var out1 := FieldOut(out, msg, i, t, p, z, c);
    StoredCells(out, msg, i, t, c);
    forall m, j | 0 <= m < |out1.kinds| && 0 <= j < |types[out1.kinds[m]].fields|
      ensures SlotOwned(types, out1, m, j)
    {
      assert SlotOwned(types, out, m, j);
      if m == msg {
        NotShared(types, out.kinds[msg], i, j);
      }
    }
  }

  lemma NotShared(types: seq<TypeParser>, ty: nat, i: nat, j: nat)
    requires NoneShared(types) && ty < |types| && i < |types[ty].fields| && j < |types[ty].fields|
    ensures !Shares(types[ty], i, j)
  {
  }

  /**
   Where slots are not shared, the message a field leads to is the same whether or not the which-word is consulted.
   */
  lemma EnterOwned(types: seq<TypeParser>, out: Out, msg: nat, i: nat, start: nat, end: nat)
    requires NoneShared(types) && Owned(types, out) && msg < |out.kinds| && i < |types[out.kinds[msg]].fields|
    requires Reachable(types[out.kinds[msg]].fields[i])
    requires var t := types[out.kinds[msg]].fields[i].thunk; IsMessage(t) && t.ty < |types|
    ensures var t := types[out.kinds[msg]].fields[i].thunk;
            var e := EnterSub(|types|, false, out, msg, i, t, start, end);
            && e == EnterSub(|types|, true, out, msg, i, t, start, end) && e.Into?
            && e.sub < |e.out.kinds| && e.out.kinds[e.sub] == e.ty == t.ty && out.kinds <= e.out.kinds
  {
    hide NoneShared;
    assert SlotOwned(types, out, msg, i);
  }

  lemma EnteredOwned(types: seq<TypeParser>, out: Out, msg: nat, i: nat, start: nat, end: nat)
    requires NoneShared(types) && Owned(types, out) && msg < |out.kinds| && i < |types[out.kinds[msg]].fields|
    requires Reachable(types[out.kinds[msg]].fields[i])
    requires var t := types[out.kinds[msg]].fields[i].thunk; IsMessage(t) && t.ty < |types|
    ensures Owned(types, EnterSub(|types|, false, out, msg, i, types[out.kinds[msg]].fields[i].thunk, start, end).out)
  {
    hide NoneShared, SlotOwned;
    var t := types[out.kinds[msg]].fields[i].thunk;
    EnterKinds(|types|, false, out, msg, i, t, start, end);
    var out1 := EnterSub(|types|, false, out, msg, i, t, start, end).out;
    forall m, j | 0 <= m < |out1.kinds| && 0 <= j < |types[out1.kinds[m]].fields|
      ensures SlotOwned(types, out1, m, j)
    {
      EnteredSlot(types, out, msg, i, start, end, m, j);
    }
  }

  lemma EnteredSlot(types: seq<TypeParser>, out: Out, msg: nat, i: nat, start: nat, end: nat, m: nat, j: nat)
    requires NoneShared(types) && Owned(types, out) && msg < |out.kinds| && i < |types[out.kinds[msg]].fields|
    requires Reachable(types[out.kinds[msg]].fields[i])
    requires var t := types[out.kinds[msg]].fields[i].thunk; IsMessage(t) && t.ty < |types|
    requires var out1 := EnterSub(|types|, false, out, msg, i, types[out.kinds[msg]].fields[i].thunk, start, end).out;
             KindsOk(|types|, out1) && m < |out1.kinds| && j < |types[out1.kinds[m]].fields|
    ensures var out1 := EnterSub(|types|, false, out, msg, i, types[out.kinds[msg]].fields[i].thunk, start, end).out;
            SlotOwned(types, out1, m, j)
  {
    hide NoneShared, EnterSub;
    EnterCells(|types|, out, msg, i, types[out.kinds[msg]].fields[i].thunk, start, end);
    assert SlotOwned(types, out, msg, i);
    if m < |out.kinds| {
      assert SlotOwned(types, out, m, j);
      if m == msg {
        NotShared(types, out.kinds[msg], i, j);
      }
    }
  }

  lemma UnknownOwned(env: Env, ty: nat, msg: nat, lo: nat, z: nat, out: Out)
    requires ty < |env.types| && Owned(env.types, out)
    ensures var out1 := UnknownOut(env, ty, msg, lo, z, out);
            Owned(env.types, out1) && out1.kinds == out.kinds
              && out1 == UnknownOut(env.(byWhich := true), ty, msg, lo, z, out)
  {
    hide Owned;
    EmitOwned(env.types, out, Unknown(msg, lo, z));
  }

  lemma KnownSame(env: Env, t: Thunk, wireType: nat, p: nat, hi: nat)
    requires hi + PADDING <= |env.mem| && ThunkOk(|env.types|, t, wireType) && !IsMessage(t)
    ensures KnownIn(env.(byWhich := true), t, wireType, p, hi) == KnownIn(env, t, wireType, p, hi)
  {
  }

  lemma FieldKeepsKinds(out: Out, msg: nat, field: nat, t: Thunk, p: nat, z: nat, c: Content)
    ensures FieldOut(out, msg, field, t, p, z, c).kinds == out.kinds
  {
  }

  /**
   Where no message field shares its slot, the parser takes exactly the steps that oneofs demand: a field finds the
   submessage that it stored before, and a submessage has the type of its field.
   */
  lemma {:induction false} WalkAgrees(env: Env, lo: nat, hi: nat, ty: nat, msg: nat, depth: nat, out: Out)
    requires TypesOk(env.types) && NoneShared(env.types) && Owned(env.types, out) && !env.byWhich
    requires ty < |env.types| && msg < |out.kinds| && out.kinds[msg] == ty && lo <= hi && hi + PADDING <= |env.mem|
    ensures var r := Walk(env, lo, hi, ty, msg, depth, out);
            && r == Walk(env.(byWhich := true), lo, hi, ty, msg, depth, out)
            && !r.Misread?
            && (r.Done? ==> Owned(env.types, r.out) && out.kinds <= r.out.kinds)
    decreases hi - lo, 0
  {
    hide TypesOk, NoneShared, Owned, TagIn, WalkRecord;
    if lo < hi && TagIn(env.mem, lo, hi).Some? {
      var t := TagIn(env.mem, lo, hi).value;
      RecordAgrees(env, lo, t.0, t.1, hi, ty, msg, depth, out);
    }
  }

  lemma {:induction false} RecordAgrees(env: Env, lo: nat, tag: nat, p: nat, hi: nat, ty: nat, msg: nat, depth: nat,
                                        out: Out)
    requires TypesOk(env.types) && NoneShared(env.types) && Owned(env.types, out) && !env.byWhich
    requires ty < |env.types| && msg < |out.kinds| && out.kinds[msg] == ty && lo < p <= hi && hi + PADDING <= |env.mem|
    requires tag >= 8
    ensures var r := WalkRecord(env, lo, tag, p, hi, ty, msg, depth, out);
            && r == WalkRecord(env.(byWhich := true), lo, tag, p, hi, ty, msg, depth, out)
            && !r.Misread?
            && (r.Done? ==> Owned(env.types, r.out) && out.kinds <= r.out.kinds)
    decreases hi - p, 2
  {
    hide TypesOk, NoneShared, Owned, BytesIn, BodyEnd, FieldOut, UnknownOut, KnownIn, Walk, WalkSub;
    if tag !in env.types[ty].tags {
      if BodyEnd(env.mem, p, hi, tag, env.maxDepth).Some? {
        var z := BodyEnd(env.mem, p, hi, tag, env.maxDepth).value;
        UnknownOwned(env, ty, msg, lo, z, out);
        WalkAgrees(env, z, hi, ty, msg, depth, UnknownOut(env, ty, msg, lo, z, out));
      }
    } else {
      KnownField(env.types, ty, tag);
      var i := env.types[ty].tags[tag];
      var t := env.types[ty].fields[i].thunk;
      if IsMessage(t) {
        if BytesIn(env.mem, p, hi).Some? {
          var (s, z) := BytesIn(env.mem, p, hi).value;
          SubAgrees(env, s, z, hi, ty, msg, i, depth, out);
        }
      } else {
        KnownSame(env, t, tag % 8, p, hi);
        var r := KnownIn(env, t, tag % 8, p, hi);
        if r.Got? {
          FieldOwned(env.types, out, msg, i, p, r.end, r.value);
          FieldKeepsKinds(out, msg, i, t, p, r.end, r.value);
          WalkAgrees(env, r.end, hi, ty, msg, depth, FieldOut(out, msg, i, t, p, r.end, r.value));
        }
      }
    }
  }

  lemma {:induction false} SubAgrees(env: Env, s: nat, z: nat, hi: nat, ty: nat, msg: nat, i: nat, depth: nat, out: Out)
    requires TypesOk(env.types) && NoneShared(env.types) && Owned(env.types, out) && !env.byWhich
    requires ty < |env.types| && msg < |out.kinds| && out.kinds[msg] == ty && s <= z <= hi && hi + PADDING <= |env.mem|
    requires MessageField(env.types, ty, i) && Reachable(env.types[ty].fields[i])
    ensures var r := WalkSub(env, s, z, hi, ty, msg, i, depth, out);
            && r == WalkSub(env.(byWhich := true), s, z, hi, ty, msg, i, depth, out)
            && !r.Misread?
            && (r.Done? ==> Owned(env.types, r.out) && out.kinds <= r.out.kinds)
    decreases hi - s, 1
  {
    hide TypesOk, NoneShared, Owned, EnterSub, Walk;
    EnterOwned(env.types, out, msg, i, s, z);
    EnteredOwned(env.types, out, msg, i, s, z);
    var e := EnterSub(|env.types|, false, out, msg, i, env.types[ty].fields[i].thunk, s, z);
    if s == z {
      WalkAgrees(env, z, hi, ty, msg, depth, e.out);
    } else if !(Level(env, z, hi) && depth == 0) {
      var below := Below(env, z, hi, depth);
      WalkAgrees(env, s, z, e.ty, e.sub, below, e.out);
      var r := Walk(env, s, z, e.ty, e.sub, below, e.out);
      if r.Done? {
        WalkAgrees(env, z, hi, ty, msg, depth, r.out);
      }
    }
  }

  lemma StartOwned(types: seq<TypeParser>, ty: nat)
    requires ty < |types|
    ensures Owned(types, Start(ty))
  {
  }

  // ----- Where slots are shared -----

  /** A body that leaves a number or a message in the slot of a field. */
  function Body(t: Thunk): seq<byte> {
    if t.Store? && t.kind.Fixed? then [1] + Zeros(WidthOf(t.kind) - 1)
    else if t.Store? && (t.kind.Bytes? || t.kind.Text?) then [1, 0x41]
    else if t.Store? then [1]
    else Encode(0)
  }

  function Zeros(n: int): seq<byte> {
    seq(if n < 0 then 0 else n, _ => 0)
  }

  lemma EncodeShort(v: nat, k: nat)
    requires k in {1, 5} && v < (if k == 1 then 128 else 0x1_0000_0000)
    ensures 0 < |Encode(v)| <= k
  {
    hide Encode;
    Pow2Times128(0);
    Tag.Pow2At35();
    EncodeLength(v, k);
    EncodeExact(v);
  }

  /** An encoded number is read back, whatever limit it keeps to. */
  lemma VarintHere(mem: seq<byte>, p: nat, hi: nat, v: nat, limit: nat)
    requires 5 <= limit <= 10 && v < 0x1_0000_0000 && p + |Encode(v)| <= hi && hi + PADDING <= |mem|
    requires mem[p..p + |Encode(v)|] == Encode(v)
    ensures p < hi && VarintIn(mem, p, hi, limit) == Some((v, p + |Encode(v)|))
  {
    hide Encode, IsVarint, Value;
    EncodeExact(v);
    EncodeShort(v, 5);
    LengthOfVarint(mem, p, |Encode(v)|, limit);
  }

  /** A one-byte varint. */
  lemma ByteHere(mem: seq<byte>, p: nat, hi: nat)
    requires p < hi && hi + PADDING <= |mem| && mem[p] <= 1
    ensures VarintIn(mem, p, hi, 10) == Some((mem[p] as nat, p + 1))
  {
    hide VarintIn;
    OneByte(mem, p, hi);
  }

  /** The first record stores a word that is not zero. */
  lemma BodyRead(env: Env, t: Thunk, wireType: nat, p: nat, hi: nat)
    requires t.Store? && ThunkOk(|env.types|, t, wireType) && p + |Body(t)| <= hi && hi + PADDING <= |env.mem|
    requires env.mem[p..p + |Body(t)|] == Body(t)
    ensures var r := KnownIn(env, t, wireType, p, hi);
            && r.Got? && r.end == p + |Body(t)|
            && r.value.Word? && LoadPointer(StoreNumber(ZERO, r.value.word, WidthOf(t.kind))) == Pointer.Stray
  {
    hide ValueIn, Body;
    BodyValue(env, t, p, hi);
  }

  lemma BodyValue(env: Env, t: Thunk, p: nat, hi: nat)
    requires t.Store? && KindOk(t.kind) && p + |Body(t)| <= hi && hi + PADDING <= |env.mem|
    requires env.mem[p..p + |Body(t)|] == Body(t)
    ensures var r := ValueIn(env.mem, t.kind, p, hi, env.lenient); r.Got? && r.end == p + |Body(t)| && r.value > 0
  {
    hide VarintIn;
    var s := env.mem[p..p + |Body(t)|];
    assert env.mem[p] == s[0];
    if t.kind.Fixed? {
      assert LittleEndian(env.mem, p, WidthOf(t.kind)) > 0;
    } else {
      ByteHere(env.mem, p, hi);
      if t.kind.Bytes? || t.kind.Text? {
        assert env.mem[p + 1] == s[1];
        LetterIsText(env.mem, p + 1);
      } else {
        assert t.kind.ZigZag? ==> ZigZagBits(1, t.kind.width) > 0;
      }
    }
  }

  lemma LetterIsText(mem: seq<byte>, p: nat)
    requires p + 1 <= |mem| && mem[p] == 0x41
    ensures Utf8.WellFormed(mem, p, p + 1)
  {
  }

  lemma FieldNumber(types: seq<TypeParser>, ty: nat, i: nat)
    requires TypesOk(types) && ty < |types| && i < |types[ty].fields| && Reachable(types[ty].fields[i])
    ensures var f := types[ty].fields[i];
            && 8 <= f.number < 0x1_0000_0000 && ThunkOk(|types|, f.thunk, f.number % 8)
            && f.number in types[ty].tags && types[ty].tags[f.number] == i
  {
    TypesOkAt(types, ty);
    assert FieldOk(|types|, types[ty].fields[i], |types[ty].fields|);
  }

  /** A record that starts with the tag of field i goes to field i. */
  lemma TagHere(env: Env, ty: nat, i: nat, lo: nat, hi: nat, depth: nat, out: Out)
    requires TypesOk(env.types) && ty < |env.types| && i < |env.types[ty].fields| && Reachable(env.types[ty].fields[i])
    requires var code := Encode(env.types[ty].fields[i].number);
             lo + |code| <= hi && hi + PADDING <= |env.mem| && env.mem[lo..lo + |code|] == code
    ensures var f := env.types[ty].fields[i];
            var p := lo + |Encode(f.number)|;
            && lo < p && ThunkOk(|env.types|, f.thunk, f.number % 8)
            && f.number in env.types[ty].tags && env.types[ty].tags[f.number] == i
            && Walk(env, lo, hi, ty, 0, depth, out) == WalkRecord(env, lo, f.number, p, hi, ty, 0, depth, out)
  {
    hide TypesOk, Encode, VarintIn, WalkRecord;
    var f := env.types[ty].fields[i];
    FieldNumber(env.types, ty, i);
    EncodeShort(f.number, 5);
    VarintHere(env.mem, lo, hi, f.number, 9);
  }

  /** A record of a number field that has that body leaves a word that is no address. */
  lemma NumberRecord(env: Env, ty: nat, i: nat, lo: nat, p: nat, z: nat, hi: nat, depth: nat) returns (out: Out)
    requires TypesOk(env.types) && ty < |env.types| && i < |env.types[ty].fields| && Reachable(env.types[ty].fields[i])
    requires env.types[ty].fields[i].thunk.Store? && lo < p && z <= hi && hi + PADDING <= |env.mem| && !env.byWhich
    requires var body := Body(env.types[ty].fields[i].thunk); p + |body| == z && env.mem[p..z] == body
    ensures var f := env.types[ty].fields[i];
            && WalkRecord(env, lo, f.number, p, hi, ty, 0, depth, Start(ty)) == Walk(env, z, hi, ty, 0, depth, out)
            && WalkRecord(env.(byWhich := true), lo, f.number, p, hi, ty, 0, depth, Start(ty)) ==
               Walk(env.(byWhich := true), z, hi, ty, 0, depth, out)
            && out.kinds == [ty] && LoadPointer(CellAt(out, (0, f.thunk.slot))) == Pointer.Stray
    ensures out.which == map[(0, env.types[ty].fields[i].thunk.slot) := i]
  {
    hide TypesOk, KnownIn, Walk, Body, StoreNumber, LoadPointer;
    var f := env.types[ty].fields[i];
    FieldNumber(env.types, ty, i);
    BodyRead(env, f.thunk, f.number % 8, p, hi);
    KnownSame(env, f.thunk, f.number % 8, p, hi);
    out := FieldOut(Start(ty), 0, i, f.thunk, p, z, KnownIn(env, f.thunk, f.number % 8, p, hi).value);
  }

  /** A record of a message field. */
  lemma MessageRecord(env: Env, ty: nat, i: nat, lo: nat, p: nat, hi: nat, depth: nat, body: seq<byte>, out: Out)
    requires TypesOk(env.types) && ty < |env.types| && i < |env.types[ty].fields| && Reachable(env.types[ty].fields[i])
    requires env.types[ty].fields[i].thunk.Message? && lo < p && hi + PADDING <= |env.mem| && |body| < 0x1_0000_0000
    requires var s := p + |Encode(|body|)|; s + |body| <= hi && env.mem[p..s] == Encode(|body|)
    ensures var f := env.types[ty].fields[i];
            var s := p + |Encode(|body|)|;
            && p < s
            && WalkRecord(env, lo, f.number, p, hi, ty, 0, depth, out) ==
               WalkSub(env, s, s + |body|, hi, ty, 0, i, depth, out)
  {
    hide TypesOk, WalkSub, VarintIn, Encode;
    FieldNumber(env.types, ty, i);
    VarintHere(env.mem, p, hi, |body|, 10);
  }

  /** A record of field i at lo, the first of the input, with the body that leaves something in its slot. */
  lemma FirstRecord(env: Env, ty: nat, i: nat, p: nat, z: nat, hi: nat, depth: nat) returns (out: Out)
    requires TypesOk(env.types) && ty < |env.types| && i < |env.types[ty].fields| && Reachable(env.types[ty].fields[i])
    requires env.types[ty].fields[i].thunk.Store? || env.types[ty].fields[i].thunk.Message?
    requires 0 < p && z <= hi && hi + PADDING <= |env.mem| && !env.byWhich
    requires var body := Body(env.types[ty].fields[i].thunk); p + |body| == z && env.mem[p..z] == body
    ensures var f := env.types[ty].fields[i];
            && WalkRecord(env, 0, f.number, p, hi, ty, 0, depth, Start(ty)) == Walk(env, z, hi, ty, 0, depth, out)
            && WalkRecord(env.(byWhich := true), 0, f.number, p, hi, ty, 0, depth, Start(ty)) ==
               Walk(env.(byWhich := true), z, hi, ty, 0, depth, out)
            && InUse(out, ty, i, f.thunk)
  {
    hide TypesOk, Walk, WalkRecord;
    var t := env.types[ty].fields[i].thunk;
    if t.Store? {
      hide Body, LoadPointer;
      out := NumberRecord(env, ty, i, 0, p, z, hi, depth);
    } else {
      MessageRecord(env, ty, i, 0, p, hi, depth, [], Start(ty));
      MessageRecord(env.(byWhich := true), ty, i, 0, p, hi, depth, [], Start(ty));
      out := EnterSub(|env.types|, env.byWhich, Start(ty), 0, i, t, z, z).out;
    }
  }

  /** The slot of message 0 was last used by field i, which left a number or a submessage there. */
  ghost predicate InUse(out: Out, ty: nat, i: nat, t: Thunk)
    requires t.Store? || t.Message?
  {
    && out.which == map[(0, t.slot) := i]
    && (t.Store? ==> LoadPointer(CellAt(out, (0, t.slot))) == Pointer.Stray && out.kinds == [ty])
    && (t.Message? ==> LoadPointer(CellAt(out, (0, t.slot))) == To(1) && out.kinds == [ty, t.ty])
  }

  /** A record of field i that leaves something in its slot, and a record of message field j. */
  function Clash(t: TypeParser, i: nat, j: nat, body: seq<byte>): (r: seq<byte>)
    requires i < |t.fields| && j < |t.fields|
    ensures |r| >= |body|
  {
    Encode(t.fields[i].number) + Body(t.fields[i].thunk) + Encode(t.fields[j].number) + Encode(|body|) + body
  }

  lemma Parts(a: seq<byte>, b: seq<byte>, c: seq<byte>, d: seq<byte>, e: seq<byte>, rest: seq<byte>)
    ensures var s := a + b + c + d + e + rest;
            var p, q := |a| + |b|, |a| + |b| + |c|;
            s[0..|a|] == a && s[|a|..p] == b && s[p..q] == c && s[q..q + |d|] == d && s[q + |d|..q + |d| + |e|] == e
  {
  }

  /**
   Parsing that input, whether or not the which-word is consulted, comes down to which message the contents of the
   second record are parsed into.
   */
  lemma ClashSteps(env: Env, ty: nat, i: nat, j: nat, body: seq<byte>, depth: nat) returns (out: Out)
    requires TypesOk(env.types) && ty < |env.types| && i < |env.types[ty].fields| && j < |env.types[ty].fields|
    requires Shares(env.types[ty], i, j) && |body| < 0x1_0000_0000 && !env.byWhich
    requires env.mem == Clash(env.types[ty], i, j, body) + Zeros(PADDING)
    ensures var n := |Clash(env.types[ty], i, j, body)|;
            && Walk(env, 0, n, ty, 0, depth, Start(ty)) == WalkSub(env, n - |body|, n, n, ty, 0, j, depth, out)
            && Walk(env.(byWhich := true), 0, n, ty, 0, depth, Start(ty)) ==
               WalkSub(env.(byWhich := true), n - |body|, n, n, ty, 0, j, depth, out)
            && InUse(out, ty, i, env.types[ty].fields[i].thunk)
  {
    hide TypesOk, Walk, WalkRecord, WalkSub, Encode, InUse, Body;
    var a, b := env.types[ty].fields[i], env.types[ty].fields[j];
    var code, first, code2, size := Encode(a.number), Body(a.thunk), Encode(b.number), Encode(|body|);
    var p, z, q, n := |code|, |code| + |first|, |code| + |first| + |code2|, |env.mem| - PADDING;
    Parts(code, first, code2, size, body, Zeros(PADDING));
    var w := env.(byWhich := true);
    TagHere(env, ty, i, 0, n, depth, Start(ty));
    TagHere(w, ty, i, 0, n, depth, Start(ty));
    out := FirstRecord(env, ty, i, p, z, n, depth);
    TagHere(env, ty, j, z, n, depth, out);
    TagHere(w, ty, j, z, n, depth, out);
    MessageRecord(env, ty, j, z, q, n, depth, body, out);
    MessageRecord(w, ty, j, z, q, n, depth, body, out);
  }

  /** The parser and oneofs agree on the first len bytes of mem, as a message of type ty. */
  ghost predicate AgreesOn(env: Env, mem: seq<byte>, len: nat, ty: nat, depth: nat)
    requires TypesOk(env.types) && ty < |env.types| && len + PADDING <= |mem|
  {
    Walk(env.(mem := mem, byWhich := false), 0, len, ty, 0, depth, Start(ty)) ==
    Walk(env.(mem := mem, byWhich := true), 0, len, ty, 0, depth, Start(ty))
  }

  /** An empty record of a message field whose slot another field used is taken for a different message. */
  lemma SecondDiffers(types: nat, out: Out, ty: nat, i: nat, j: nat, a: Thunk, b: Thunk, z: nat)
    requires (a.Store? || a.Message?) && b.Message? && a.slot == b.slot && i != j && InUse(out, ty, i, a)
    requires (a.Message? ==> a.ty < types) && b.ty < types
    ensures EnterSub(types, false, out, 0, j, b, z, z).out != EnterSub(types, true, out, 0, j, b, z, z).out
  {
    var parser := EnterSub(types, false, out, 0, j, b, z, z).out.events;
    var right := EnterSub(types, true, out, 0, j, b, z, z).out.events;
    assert right[|out.events|] == Enter(0, j, |out.kinds|, z, z);
    if a.Message? {
      assert parser[|out.events|] == Enter(0, j, 1, z, z);
    } else {
      assert parser[|out.events|] == Event.Stray(0, j, z, z);
    }
  }

  /**
   For any two fields that share a slot, the second one a message, there is an input on which the parser fails oneofs.
   */
  lemma ClashDiffers(env: Env, ty: nat, i: nat, j: nat, depth: nat)
    requires TypesOk(env.types) && ty < |env.types| && i < |env.types[ty].fields| && j < |env.types[ty].fields|
    requires Shares(env.types[ty], i, j)
    ensures var input := Clash(env.types[ty], i, j, []);
            !AgreesOn(env, input + Zeros(PADDING), |input|, ty, depth)
  {
    hide TypesOk, EnterSub, InUse, Clash;
    var n := |Clash(env.types[ty], i, j, [])|;
    var e := env.(mem := Clash(env.types[ty], i, j, []) + Zeros(PADDING), byWhich := false);
    var out := ClashSteps(e, ty, i, j, [], depth);
    FieldNumber(env.types, ty, i);
    FieldNumber(env.types, ty, j);
    SecondDiffers(|env.types|, out, ty, i, j, env.types[ty].fields[i].thunk, env.types[ty].fields[j].thunk, n);
  }

  /**
   What goes wrong on a second record with any contents: after a message field, they are parsed into that field's
   message, by its parser, and not into a new message of the type of field j; after a number, the number is taken for
   the address of a message.
   */
  lemma WrongParser(env: Env, ty: nat, i: nat, j: nat, body: seq<byte>, depth: nat) returns (out: Out, right: Out)
    requires TypesOk(env.types) && ty < |env.types| && i < |env.types[ty].fields| && j < |env.types[ty].fields|
    requires Shares(env.types[ty], i, j) && 0 < |body| < 0x1_0000_0000 && !env.byWhich && env.elide
    requires env.mem == Clash(env.types[ty], i, j, body) + Zeros(PADDING)
    ensures var a, b, n := env.types[ty].fields[i].thunk, env.types[ty].fields[j].thunk, |env.mem| - PADDING;
            var w := env.(byWhich := true);
            && (a.Message? ==> a.ty < |env.types| && out.kinds == [ty, a.ty]
                               && Walk(env, 0, n, ty, 0, depth, Start(ty)) ==
                                  Walk(env, n - |body|, n, a.ty, 1, depth, out))
            && (a.Store? ==> Walk(env, 0, n, ty, 0, depth, Start(ty)) == Misread)
            && b.ty < |env.types| && right.kinds == (if a.Message? then [ty, a.ty] else [ty]) + [b.ty]
            && Walk(w, 0, n, ty, 0, depth, Start(ty)) == Walk(w, n - |body|, n, b.ty, |right.kinds| - 1, depth, right)
  {
    hide TypesOk, EnterSub, Clash, LoadPointer, InUse, WalkSub, Walk;
    var a, b, n := env.types[ty].fields[i].thunk, env.types[ty].fields[j].thunk, |env.mem| - PADDING;
    FieldNumber(env.types, ty, i);
    FieldNumber(env.types, ty, j);
    var used := ClashSteps(env, ty, i, j, body, depth);
    EntersOther(|env.types|, used, ty, i, j, a, b, n - |body|, n);
    out := EnterSub(|env.types|, false, used, 0, j, b, n - |body|, n).out;
    right := EnterSub(|env.types|, true, used, 0, j, b, n - |body|, n).out;
    LastSub(env, n - |body|, n, ty, j, depth, used);
    LastSub(env.(byWhich := true), n - |body|, n, ty, j, depth, used);
  }

  /** A submessage at the end of the input is all that is left. */
  lemma LastSub(env: Env, s: nat, n: nat, ty: nat, i: nat, depth: nat, out: Out)
    requires TypesOk(env.types) && MessageField(env.types, ty, i) && s < n && n + PADDING <= |env.mem| && env.elide
    ensures var e := EnterSub(|env.types|, env.byWhich, out, 0, i, env.types[ty].fields[i].thunk, s, n);
            && (e.Astray? ==> WalkSub(env, s, n, n, ty, 0, i, depth, out) == Misread)
            && (e.Into? ==>
                  WalkSub(env, s, n, n, ty, 0, i, depth, out) == Walk(env, s, n, e.ty, e.sub, depth, e.out))
  {
    hide TypesOk, EnterSub;
  }

  lemma EntersOther(types: nat, out: Out, ty: nat, i: nat, j: nat, a: Thunk, b: Thunk, s: nat, z: nat)
    requires (a.Store? || a.Message?) && b.Message? && a.slot == b.slot && i != j && InUse(out, ty, i, a)
    requires (a.Message? ==> a.ty < types) && b.ty < types
    ensures var parser, right := EnterSub(types, false, out, 0, j, b, s, z), EnterSub(types, true, out, 0, j, b, s, z);
            && (a.Message? ==> parser == Into(parser.out, 1, a.ty) && parser.out.kinds == [ty, a.ty])
            && (a.Store? ==> parser.Astray?)
            && right == Into(right.out, |out.kinds|, b.ty) && right.out.kinds == out.kinds + [b.ty]
            && out.kinds == if a.Message? then [ty, a.ty] else [ty]
  {
  }

  /**
   The parser does what oneofs demand on every input exactly if no message field shares its slot, that is, if no oneof
   of two or more members has a message among them.
   */
  lemma AgreesExactly(env: Env)
    requires TypesOk(env.types)
    ensures NoneShared(env.types) <==>
            forall mem, len: nat, ty, depth: nat | 0 <= ty < |env.types| && len + PADDING <= |mem| ::
              AgreesOn(env, mem, len, ty, depth)
  {
    hide TypesOk, AgreesOn, Clash;
    if NoneShared(env.types) {
      forall mem, len: nat, ty, depth: nat | 0 <= ty < |env.types| && len + PADDING <= |mem|
        ensures AgreesOn(env, mem, len, ty, depth)
      {
        AgreesHere(env, mem, len, ty, depth);
      }
    } else {
      var ty, i, j :| 0 <= ty < |env.types| && 0 <= i < |env.types[ty].fields| && 0 <= j < |env.types[ty].fields|
        && Shares(env.types[ty], i, j);
      ClashDiffers(env, ty, i, j, 0);
      var input := Clash(env.types[ty], i, j, []);
      assert !AgreesOn(env, input + Zeros(PADDING), |input|, ty, 0);
    }
  }

  lemma AgreesHere(env: Env, mem: seq<byte>, len: nat, ty: nat, depth: nat)
    requires TypesOk(env.types) && NoneShared(env.types) && ty < |env.types| && len + PADDING <= |mem|
    ensures AgreesOn(env, mem, len, ty, depth)
    ensures !Walk(env.(mem := mem, byWhich := false), 0, len, ty, 0, depth, Start(ty)).Misread?
  {
    hide TypesOk, NoneShared, Owned, Walk;
    StartOwned(env.types, ty);
    WalkAgrees(env.(mem := mem, byWhich := false), 0, len, ty, 0, depth, Start(ty));
  }
}
