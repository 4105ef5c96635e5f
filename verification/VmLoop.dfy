/**
 The parser loop and its stack (internal/tdp/vm/run.go and vm.go), proved to do what the
 recursive descent of VmSpec does.
 */
module VmLoop {
  import opened Base128
  import opened VmFields
  import opened VmRecords
  import opened VmSlots
  import opened VmSpec
  import opened VmUnknown
  import opened Wire
  import opened Wrappers
  import M = VmMeaning
  import R = VmRoundTrip
  import T = VmTrees

  /** endGroup when no group is open. */
  const NOT_A_GROUP: nat := 0xffff_ffff_ffff_ffff

  /** A saved parser state. */
  datatype Frame = Frame(end: nat, endGroup: nat, msg: nat, ty: nat, field: nat)

  // ----- The rest of a parse, after its current message -----

  ghost function Continue(env: Env, end: nat, pending: seq<Pending>, result: Outcome): Outcome
    requires TypesOk(env.types) && PendingOk(env, end, pending)
  {
    match result
    case Done(out) =>
      if pending == [] then Done(out)
      else Finish(env, end, pending[0].end, pending[0].ty, pending[0].msg, pending[0].depth, pending[1..], out)
    case failure => failure
  }

  /** At the end of a message nothing is left but the pending ones. */
  lemma FinishAtEnd(env: Env, end: nat, ty: nat, msg: nat, depth: nat, pending: seq<Pending>, out: Out)
    requires TypesOk(env.types) && ty < |env.types| && end + PADDING <= |env.mem| && PendingOk(env, end, pending)
    ensures Finish(env, end, end, ty, msg, depth, pending, out) == Continue(env, end, pending, Done(out))
  {
  }

  lemma FinishWalks(env: Env, ptr: nat, end: nat, ty: nat, msg: nat, depth: nat, pending: seq<Pending>, out: Out)
    requires TypesOk(env.types) && ty < |env.types| && ptr <= end && end + PADDING <= |env.mem|
    requires PendingOk(env, end, pending)
    ensures Finish(env, ptr, end, ty, msg, depth, pending, out) ==
            Continue(env, end, pending, Walk(env, ptr, end, ty, msg, depth, out))
  {
  }

  lemma ContinueFails(env: Env, end: nat, pending: seq<Pending>, result: Outcome)
    requires TypesOk(env.types) && PendingOk(env, end, pending)
    ensures !result.Done? ==> Continue(env, end, pending, result) == result
  {
    hide Finish;
  }

  /** Walk on a submessage, and then on the rest of its parent. */
  ghost function Then(env: Env, z: nat, end: nat, ty: nat, msg: nat, depth: nat, result: Outcome): Outcome
    requires TypesOk(env.types) && ty < |env.types| && z <= end && end + PADDING <= |env.mem|
  {
    match result
    case Done(out) => Walk(env, z, end, ty, msg, depth, out)
    case failure => failure
  }

  /** Pushing a frame for a submessage continues the parse where the recursive descent would. */
  lemma EnterPushed(env: Env, s: nat, z: nat, end: nat, ty: nat, msg: nat, depth: nat, pending: seq<Pending>,
                    subTy: nat, sub: nat, below: nat, out: Out)
    requires TypesOk(env.types) && ty < |env.types| && subTy < |env.types|
    requires s <= z <= end && end + PADDING <= |env.mem| && PendingOk(env, end, pending)
    ensures PendingOk(env, z, [Pending(end, ty, msg, depth)] + pending)
    ensures Finish(env, s, z, subTy, sub, below, [Pending(end, ty, msg, depth)] + pending, out) ==
            Continue(env, end, pending, Then(env, z, end, ty, msg, depth, Walk(env, s, z, subTy, sub, below, out)))
  {
    hide Walk;
    var more := [Pending(end, ty, msg, depth)] + pending;
    assert more[1..] == pending;
  }

  /** Without a frame, a submessage that ends where its parent ends leaves the same rest. */
  lemma EnterElided(env: Env, s: nat, end: nat, ty: nat, msg: nat, depth: nat, pending: seq<Pending>,
                    subTy: nat, sub: nat, below: nat, out: Out)
    requires TypesOk(env.types) && ty < |env.types| && subTy < |env.types|
    requires s <= end && end + PADDING <= |env.mem| && PendingOk(env, end, pending)
    ensures Finish(env, s, end, subTy, sub, below, pending, out) ==
            Continue(env, end, pending, Then(env, end, end, ty, msg, depth, Walk(env, s, end, subTy, sub, below, out)))
  {
    FinishWalks(env, s, end, subTy, sub, below, pending, out);
    assert Then(env, end, end, ty, msg, depth, Walk(env, s, end, subTy, sub, below, out)) ==
      Walk(env, s, end, subTy, sub, below, out);
  }

  // ----- The parser -----

  class Machine {
    /** env.elide tells whether frames are elided, as the parser does; otherwise every submessage is pushed. */
    const env: Env

    // The registers P1 and P2; the message type is kept in p3.
    var ptr: nat
    var end: nat
    var endGroup: nat
    var msg: nat
    var ty: nat
    var field: nat

    // The stack, which grows down from frames.Length to 0.
    const frames: array<Frame>
    var top: nat

    // What the parse has produced.
    var out: Out
    var unknown: map<nat, seq<Range>>

    // What the frames stand for, and how deep submessages may still nest.
    ghost var pending: seq<Pending>
    ghost var depth: nat

    ghost predicate FrameFor(f: Frame, p: Pending) {
      && f.end == p.end && f.endGroup == NOT_A_GROUP && f.msg == p.msg && f.ty == p.ty
      && p.ty < |env.types| && f.field < |env.types[p.ty].fields|
    }

    ghost predicate StackOk()
      reads `top, `pending, `depth, frames
    {
      StackAt(frames[..], top, pending, depth)
    }

    /** The frames hold the pending messages, and as many are left as there are levels to go. */
    ghost predicate StackAt(fs: seq<Frame>, t: nat, rest: seq<Pending>, d: nat) {
      && |fs| == env.maxDepth && t < |fs| && |fs| - t == |rest| + 1
      && (forall k :: 0 <= k < |rest| ==> FrameFor(fs[t + k], rest[k]))
      && (forall k :: 0 <= k < |rest| ==> |rest| - k + rest[k].depth == env.maxDepth)
      && |rest| + 1 + d == env.maxDepth
    }

    lemma StackPushed(fs: seq<Frame>, t: nat, rest: seq<Pending>, d: nat, p: Pending, f: nat)
      requires StackAt(fs, t, rest, d) && d > 0 && p.depth == d
      requires p.ty < |env.types| && f < |env.types[p.ty].fields|
      ensures 0 < t < |fs| && StackAt(fs[t - 1 := Frame(p.end, NOT_A_GROUP, p.msg, p.ty, f)], t - 1, [p] + rest, d - 1)
    {
      var fs1, rest1 := fs[t - 1 := Frame(p.end, NOT_A_GROUP, p.msg, p.ty, f)], [p] + rest;
      forall k | 0 <= k < |rest1|
        ensures FrameFor(fs1[t - 1 + k], rest1[k]) && |rest1| - k + rest1[k].depth == env.maxDepth
      {
        if k > 0 {
          assert FrameFor(fs[t + (k - 1)], rest[k - 1]);
        }
      }
    }

    /** The stack is full exactly when there is no level to go. */
    lemma StackRoom(fs: seq<Frame>, t: nat, rest: seq<Pending>, d: nat)
      requires StackAt(fs, t, rest, d)
      ensures t < |fs| && (t == 0 <==> d == 0)
    {
    }

    lemma StackPopped(fs: seq<Frame>, t: nat, rest: seq<Pending>, d: nat)
      requires StackAt(fs, t, rest, d) && rest != []
      ensures FrameFor(fs[t], rest[0]) && StackAt(fs, t + 1, rest[1..], rest[0].depth)
    {
      assert FrameFor(fs[t + 0], rest[0]);
      forall k | 0 <= k < |rest| - 1
        ensures FrameFor(fs[t + 1 + k], rest[1..][k])
      {
        assert FrameFor(fs[t + (k + 1)], rest[k + 1]);
      }
    }

    ghost predicate RegsOk()
      reads `ptr, `end, `endGroup, `ty, `field, `pending
    {
      && EnvOk(env) && ty < |env.types| && field < |env.types[ty].fields|
      && ptr <= end && end + PADDING <= |env.mem| && |env.mem| < TWO64
      && endGroup == NOT_A_GROUP
      && PendingOk(env, end, pending)
    }

    function Stored(m: nat): seq<Range>
      reads `unknown
    {
      if m in unknown then unknown[m] else []
    }

    ghost predicate UnknownOk()
      reads `unknown, `out
    {
      forall m :: Stored(m) == StoredFor(out.events, m)
    }

    ghost predicate Valid()
      reads this, frames
    {
      StackOk() && RegsOk() && UnknownOk()
    }

    /** What the parse will have produced when it ends. */
    ghost function Rest(): Outcome
      requires RegsOk()
      reads `ptr, `end, `endGroup, `ty, `field, `pending, `msg, `depth, `out
    {
      Finish(env, ptr, end, ty, msg, depth, pending, out)
    }

    /** Saves the registers and sets a new end; false stands for Fail(ErrorRecursionDepth). */
    method Push(newEnd: nat) returns (ok: bool)
      requires top <= frames.Length
      modifies this`top, this`end, frames
      ensures ok == (old(top) > 0)
      ensures !ok ==> top == old(top) && end == old(end) && frames[..] == old(frames[..])
      ensures ok ==> top == old(top) - 1 && end == newEnd
      ensures ok ==> frames[..] == old(frames[..])[top := Frame(old(end), endGroup, msg, ty, field)]
    {
      if top == 0 {
        return false;
      }
      top := top - 1;
      frames[top] := Frame(end, endGroup, msg, ty, field);
      end := newEnd;
      ok := true;
    }

    /** Restores the registers of the last frame; true when it was the last. */
    method Pop() returns (done: bool)
      requires top < frames.Length
      modifies this`top, this`end, this`endGroup, this`msg, this`ty, this`field
      ensures top == old(top) + 1 && (done <==> top == frames.Length)
      ensures var f := frames[old(top)];
              end == f.end && endGroup == f.endGroup && msg == f.msg && ty == f.ty && field == f.field
    {
      var last := frames[top];
      end, endGroup, msg, ty, field := last.end, last.endGroup, last.msg, last.ty, last.field;
      top := top + 1;
      done := top == frames.Length;
    }

    /** Starts parsing the next len bytes, which are not empty, into message m of type t. */
    method PushMessage(len: nat, m: nat, t: nat) returns (ok: bool)
      requires top <= frames.Length && t < |env.types| && len > 0
      modifies this`top, this`end, this`endGroup, this`msg, this`ty, this`field, frames
      ensures old(Elided(len)) ==> ok && top == old(top) && end == old(end) && frames[..] == old(frames[..])
      ensures !old(Elided(len)) ==> ok == (old(top) > 0)
      ensures !old(Elided(len)) && ok ==>
                && top == old(top) - 1 && end == ptr + len
                && frames[..] == old(frames[..])[top := old(Frame(end, endGroup, msg, ty, field))]
      ensures ok ==> endGroup == NOT_A_GROUP && msg == m && ty == t && field == env.types[t].entry
    {
      ok := true;
      if !Elided(len) {
        ok := Push(ptr + len);
        if !ok {
          return;
        }
      }
      endGroup := NOT_A_GROUP;
      msg := m;
      ty := t;
      field := env.types[t].entry;
    }

    /** The new message would leave its parent empty, and no group is open. */
    predicate Elided(len: nat)
      reads `ptr, `end, `endGroup
    {
      env.elide && endGroup == NOT_A_GROUP && ptr + len == end
    }

    /** The rest of the parse once the tag of a record, from lo to ptr, has been read. */
    ghost function RestOfRecord(lo: nat, tag: nat): Outcome
      requires RegsOk() && lo < ptr
      reads `ptr, `end, `endGroup, `ty, `field, `pending, `msg, `depth, `out
    {
      Continue(env, end, pending, WalkRecord(env, lo, tag, ptr, end, ty, msg, depth, out))
    }

    /** pop: the message is done, its parent continues. */
    method LeaveMessage() returns (done: bool)
      requires Valid() && ptr == end
      modifies this`top, this`end, this`endGroup, this`msg, this`ty, this`field, this`pending, this`depth
      ensures !done ==> Valid() && Rest() == old(Rest()) && top == old(top) + 1 && top < frames.Length
      ensures done ==> old(Rest()) == Done(out)
    {
      hide Walk, TypesOk, UnknownOk;
      FinishAtEnd(env, end, ty, msg, depth, pending, out);
      if pending != [] {
        StackPopped(frames[..], top, pending, depth);
      }
      done := Pop();
      if !done {
        depth := pending[0].depth;
        pending := pending[1..];
      }
    }

    /** The rest of the parse when message field i has its contents from s to z. */
    ghost function RestOfField(i: nat, s: nat, z: nat): Outcome
      requires RegsOk() && MessageField(env.types, ty, i) && s <= z <= end
      reads `ptr, `end, `endGroup, `ty, `field, `pending, `msg, `depth, `out
    {
      Continue(env, end, pending, WalkSub(env, s, z, end, ty, msg, i, depth, out))
    }

    /**
     parseMessage and parseRepeatedMessage after the length: the message in the slot, or a new one, and the push. A
     slot that holds a number is not noticed; what the parser does with such a message is not modelled.
     */
    method EnterMessage(len: nat) returns (failed: Option<Outcome>)
      requires Valid() && ptr + len <= end && MessageField(env.types, ty, field)
      requires env.types[ty].fields[field].nextOk < |env.types[ty].fields|
      modifies this, frames
      ensures failed.Some? ==> !failed.value.Done? && old(RestOfField(field, ptr, ptr + len)) == failed.value
      ensures failed.None? ==> Valid() && Rest() == old(RestOfField(field, ptr, ptr + len)) && ptr == old(ptr)
    {
      hide Walk, TypesOk, EnterSub, StoredFor, StackOk, Finish, PendingOk;
      var f := env.types[ty].fields[field];
      ghost var rest := WalkSub(env, ptr, ptr + len, end, ty, msg, field, depth, out);
      var e := EnterSub(|env.types|, env.byWhich, out, msg, field, f.thunk, ptr, ptr + len);
      UnknownAfterEnter(field, f.thunk, ptr, ptr + len);
      failed := None;
      if e.Astray? && len > 0 {
        return Some(Misread);
      }
      out := e.out;
      if len == 0 {
        FinishWalks(env, ptr, end, ty, msg, depth, pending, out);
        field := f.nextOk;
      } else {
        var ok := Descend(len, e.sub, e.ty);
        failed := if ok then None else Some(TooDeep);
      }
    }

    lemma UnknownAfterEnter(i: nat, t: Thunk, start: nat, stop: nat)
      requires UnknownOk() && IsMessage(t) && t.ty < |env.types|
      ensures forall m ::
              Stored(m) == StoredFor(EnterSub(|env.types|, env.byWhich, out, msg, i, t, start, stop).out.events, m)
    {
      hide EnterSub, StoredFor;
      forall m
        ensures Stored(m) == StoredFor(EnterSub(|env.types|, env.byWhich, out, msg, i, t, start, stop).out.events, m)
      {
        StoredEnter(|env.types|, env.byWhich, out, msg, i, t, start, stop, m);
      }
    }

    /** The rest of the parse when a submessage occupies the next len bytes. */
    ghost function RestOfSub(len: nat, sub: nat, subTy: nat): Outcome
      requires RegsOk() && ptr + len <= end && subTy < |env.types|
      reads `ptr, `end, `endGroup, `ty, `field, `pending, `msg, `depth, `out
    {
      if Level(env, ptr + len, end) && depth == 0 then TooDeep
      else
        var below := if Level(env, ptr + len, end) then depth - 1 else depth;
        Continue(env, end, pending,
                 Then(env, ptr + len, end, ty, msg, depth, Walk(env, ptr, ptr + len, subTy, sub, below, out)))
    }

    /** Enters a submessage that occupies the next len bytes, with or without a frame; false if it is too deep. */
    method Descend(len: nat, sub: nat, subTy: nat) returns (ok: bool)
      requires Valid() && len > 0 && ptr + len <= end && subTy < |env.types|
      modifies this`top, this`end, this`endGroup, this`msg, this`ty, this`field, this`pending, this`depth, frames
      ensures !ok ==> old(RestOfSub(len, sub, subTy)) == TooDeep
      ensures ok ==> Valid() && Rest() == old(RestOfSub(len, sub, subTy))
    {
      hide Walk, Then, TypesOk, UnknownOk, Finish, Continue, StackAt, PendingOk;
      ghost var p0 := Pending(end, ty, msg, depth);
      ghost var elided := Elided(len);
      StackRoom(frames[..], top, pending, depth);
      if elided {
        EnterElided(env, ptr, end, ty, msg, depth, pending, subTy, sub, depth, out);
      } else if depth > 0 {
        EnterPushed(env, ptr, ptr + len, end, ty, msg, depth, pending, subTy, sub, depth - 1, out);
        StackPushed(frames[..], top, pending, depth, p0, field);
      }
      TypesOkAt(env.types, subTy);
      ok := PushMessage(len, sub, subTy);
      if ok && !elided {
        depth := depth - 1;
        pending := [p0] + pending;
      }
    }

    /** parseField: runs the thunk of the field parser on the record whose tag ends at ptr. */
    method ParseField(ghost lo: nat, ghost tag: nat) returns (failed: Option<Outcome>)
      requires Valid() && lo < ptr && !RestOfRecord(lo, tag).Malformed?
      requires tag in env.types[ty].tags && field == env.types[ty].tags[tag]
      modifies this, frames
      ensures failed.Some? ==> !failed.value.Done? && old(RestOfRecord(lo, tag)) == failed.value
      ensures failed.None? ==> Valid() && Rest() == old(RestOfRecord(lo, tag)) && ptr > old(ptr)
    {
      hide Walk, WalkSub, WalkRecord, TypesOk, StoredFor, KnownIn, FieldOut, BytesIn, StackOk, Finish, PendingOk;
      KnownStep(env, lo, tag, ptr, end, ty, msg, field, depth, out);
      ContinueFails(env, end, pending, WalkRecord(env, lo, tag, ptr, end, ty, msg, depth, out));
      var f := env.types[ty].fields[field];
      if IsMessage(f.thunk) {
        var n := LengthPrefix(env.mem, ptr, end);
        ptr := n.ptr;
        failed := EnterMessage(n.value);
      } else {
        var r := ParseKnown(env, f.thunk, tag % 8, ptr, end);
        if r.Refused? {
          return Some(Invalid);
        }
        UnknownAfterField(f.thunk, ptr, r.end, r.value);
        out := FieldOut(out, msg, field, f.thunk, ptr, r.end, r.value);
        ptr := r.end;
        FinishWalks(env, ptr, end, ty, msg, depth, pending, out);
        field := f.nextOk;
        failed := None;
      }
    }

    lemma UnknownAfterField(t: Thunk, p: nat, z: nat, c: Content)
      requires UnknownOk()
      ensures forall m :: Stored(m) == StoredFor(FieldOut(out, msg, field, t, p, z, c).events, m)
    {
      hide StoredFor, Emit, VmSpec.Stored;
      StoredCells(out, msg, field, t, c);
      forall m
        ensures Stored(m) == StoredFor(FieldOut(out, msg, field, t, p, z, c).events, m)
      {
        StoredEmit(VmSpec.Stored(out, msg, field, t, c), Known(msg, field, p, z, c), m);
      }
    }

    lemma UnknownAfterRecord(lo: nat, z: nat)
      requires UnknownOk()
      ensures forall m :: StoredFor(Emit(out, Unknown(msg, lo, z)).events, m) ==
                if m == msg then AddRange(Stored(msg), lo, z) else Stored(m)
    {
      hide StoredFor, AddRange, Emit;
      forall m
        ensures StoredFor(Emit(out, Unknown(msg, lo, z)).events, m) ==
                if m == msg then AddRange(Stored(msg), lo, z) else Stored(m)
      {
        StoredEmit(out, Unknown(msg, lo, z), m);
      }
    }

    /** handleUnknown: skips the record whose tag ends at ptr and stores its range. */
    method HandleUnknown(ghost lo: nat, tag: nat)
      requires Valid() && lo < ptr && !RestOfRecord(lo, tag).Malformed?
      requires tag !in env.types[ty].tags
      requires TagIn(env.mem, lo, end) == Some((tag, ptr))
      modifies this`ptr, this`out, this`unknown
      ensures Valid() && Rest() == old(RestOfRecord(lo, tag)) && ptr > old(ptr)
    {
      hide Walk, WalkRecord, TypesOk, BodyEnd, StoredFor, IsVarint, Value, StackOk, Finish, Continue, PendingOk;
      UnknownStep(env, lo, tag, ptr, end, ty, msg, depth, out);
      ContinueFails(env, end, pending, WalkRecord(env, lo, tag, ptr, end, ty, msg, depth, out));
      var start := TagStart(env.mem, lo, ptr, tag);
      UnknownAfterRecord(lo, BodyEnd(env.mem, ptr, end, tag, env.maxDepth).value);
      ptr := SkipRecord(env.mem, ptr, end, tag, env.maxDepth);
      if !env.discardUnknown && !env.types[ty].discardUnknown {
        out := Emit(out, Unknown(msg, start, ptr));
        var rs := Stored(msg);
        if |rs| > 0 && rs[|rs| - 1].end == start {
          unknown := unknown[msg := rs[..|rs| - 1] + [Range(rs[|rs| - 1].start, ptr)]];
        } else {
          unknown := unknown[msg := rs + [Range(start, ptr)]];
        }
      }
      FinishWalks(env, ptr, end, ty, msg, depth, pending, out);
    }

    /** The rest of missedField: skips records until one with a known tag, which is left unread, or the end. */
    method SkipUnknowns(ghost lo: nat, tag: nat)
      requires Valid() && lo < ptr && !RestOfRecord(lo, tag).Malformed?
      requires tag !in env.types[ty].tags
      requires TagIn(env.mem, lo, end) == Some((tag, ptr))
      modifies this`ptr, this`field, this`out, this`unknown
      ensures Valid() && Rest() == old(RestOfRecord(lo, tag)) && ptr > old(ptr)
    {
      hide Walk, WalkRecord, TypesOk, BodyEnd, TagIn, StackOk, UnknownOk, Finish, Continue, PendingOk, VarintAt;
      ghost var final := RestOfRecord(lo, tag);
      ghost var from: nat := lo;
      var tag2: nat := tag;
      while true
        invariant Valid() && from < ptr && RestOfRecord(from, tag2) == final && ptr >= old(ptr)
        invariant tag2 !in env.types[ty].tags
        invariant TagIn(env.mem, from, end) == Some((tag2, ptr))
        decreases end - ptr
      {
        HandleUnknown(from, tag2);
        if ptr == end {
          return;
        }
        var scratch := ptr;
        NextTag(env, ptr, end, ty, msg, depth, pending, out);
        var r := ParseVarint(env.mem, ptr, end);
        assert r.Ok? && r.value <= 0x7fff_ffff * 8;
        ptr := r.ptr;
        tag2 := r.value;
        from := scratch;
        if tag2 % 8 == 4 {
          TypesOkAt(env.types, ty);
          field := env.types[ty].entry;
          ptr := scratch;
          return;
        }
        if tag2 in env.types[ty].tags {
          KnownField(env.types, ty, tag2);
          field := env.types[ty].tags[tag2];
          ptr := scratch;
          return;
        }
      }
    }

    /** The registers of Run before the first message, of type t, is pushed. */
    constructor (env: Env, t: nat)
      ensures this.env == env && fresh(frames)
      ensures frames.Length == env.maxDepth && top == env.maxDepth
      ensures ptr == 0 && end == 0 && endGroup == 0
      ensures out == Start(t) && unknown == map[] && pending == []
    {
      this.env := env;
      ptr, end, endGroup, msg, ty, field := 0, 0, 0, 0, 0, 0;
      frames := new Frame[env.maxDepth](_ => Frame(0, 0, 0, 0, 0));
      top := env.maxDepth;
      out, unknown := Start(t), map[];
      pending, depth := [], 0;
    }

    /**
     The parser loop. It stops, having done what the recursive descent does, or having failed where and how that fails:
     each round either consumes input or pops a frame.
     */
    method Loop() returns (failed: Option<Outcome>)
      requires Valid() && !Rest().Malformed?
      modifies this, frames
      ensures failed.None? ==> Done(out) == old(Rest()) && UnknownOk()
      ensures failed.Some? ==> !failed.value.Done? && failed.value == old(Rest())
    {
      hide Walk, WalkRecord, TypesOk, StackOk, UnknownOk, Finish, Continue, PendingOk, FieldOk, TagIn, VarintAt;
      ghost var final := Rest();
      while true
        invariant Valid() && Rest() == final
        decreases |env.mem| - ptr, frames.Length - top
      {
        if ptr == end {
          var done := LeaveMessage();
          if done {
            return None;
          }
        } else {
          ghost var lo := ptr;
          NextTag(env, ptr, end, ty, msg, depth, pending, out);
          TypesOkAt(env.types, ty);
          TagMeets(env.mem, ptr, end);
          var next := Dispatch(|env.types|, env.types[ty], env.mem, ptr, end, field, env.maxMisses);
          ptr := next.ptr;
          if next.Found? {
            field := next.field;
            KnownField(env.types, ty, TagIn(env.mem, lo, end).value.0);
            failed := ParseField(lo, TagIn(env.mem, lo, end).value.0);
            if failed.Some? {
              return;
            }
          } else {
            SkipUnknowns(lo, next.number);
          }
        }
      }
    }
  }

  /** What the rest of a well-formed message says about its next tag. */
  lemma NextTag(env: Env, ptr: nat, end: nat, ty: nat, msg: nat, depth: nat, pending: seq<Pending>, out: Out)
    requires TypesOk(env.types) && ty < |env.types| && ptr < end && end + PADDING <= |env.mem|
    requires PendingOk(env, end, pending)
    requires !Finish(env, ptr, end, ty, msg, depth, pending, out).Malformed?
    ensures TagIn(env.mem, ptr, end).Some?
    ensures var (tag, p) := TagIn(env.mem, ptr, end).value;
            && VarintAt(env.mem, ptr, end) == Ok(tag, p)
            && Finish(env, ptr, end, ty, msg, depth, pending, out) ==
               Continue(env, end, pending, WalkRecord(env, ptr, tag, p, end, ty, msg, depth, out))
  {
    hide WalkRecord, TypesOk, VarintAt, VarintIn;
    VarintMeets(env.mem, ptr, end, 9);
  }

  const MAX_INPUT: nat := 0xffff_ffff

  /**
   The outcome of Run: ErrorTooBig; a failed parse; or the steps of the parse, the messages with their slots, and the
   unknown ranges of each message.
   */
  datatype Parse = TooBig | Failed(why: Outcome) | Parse(out: Out, unknown: map<nat, seq<Range>>)

  /** What the recursive descent makes of the first len bytes of env.mem, as a message of type t. */
  ghost function Meaning(env: Env, len: nat, t: nat): Outcome
    requires TypesOk(env.types) && t < |env.types| && env.maxDepth >= 1 && len + PADDING <= |env.mem|
  {
    Walk(env, 0, len, t, 0, env.maxDepth - 1, Start(t))
  }

  /**
   Run on the first len bytes of env.mem, into message 0 of type t, unless they are malformed. The parser takes exactly
   the steps of the recursive descent, stores the same values and exactly the unknown ranges these call for. It fails
   exactly where the recursive descent does: for want of stack, on text that is not UTF-8 or a packed record of odd
   length, or on a number in a slot that it takes for the address of a message.
   */
  method Run(env: Env, len: nat, t: nat) returns (r: Parse)
    requires EnvOk(env) && t < |env.types| && env.maxDepth >= 1 && len + PADDING <= |env.mem| < TWO64
    requires !Meaning(env, len, t).Malformed?
    ensures r.TooBig? <==> len > MAX_INPUT
    ensures len <= MAX_INPUT ==>
              match Meaning(env, len, t)
              case Done(out) => r.Parse? && r.out == out
              case why => r == Failed(why)
    ensures r.Parse? ==> forall m :: (if m in r.unknown then r.unknown[m] else []) == StoredFor(r.out.events, m)
  {
    hide TypesOk, WalkRecord, TagIn;
    if len > MAX_INPUT {
      return TooBig;
    }
    if len == 0 {
      return Parse(Start(t), map[]);
    }
    var p := new Machine(env, t);
    var ok := p.PushMessage(len, 0, t);
    p.depth := env.maxDepth - 1;
    TypesOkAt(env.types, t);
    var failed := p.Loop();
    if failed.Some? {
      return Failed(failed.value);
    }
    assert forall m :: p.Stored(m) == (if m in p.unknown then p.unknown[m] else []);
    return Parse(p.out, p.unknown);
  }

  /**
   If no message field shares its slot, a parse that succeeds leaves what oneofs demand, and no number is ever taken
   for an address. What is written for any tree of records, of any types, is parsed in one step for each record, in
   order, into messages that mean the tree, unless it nests too deep; and whatever is parsed is the writing of a tree.
   The unknown ranges of a message hold the bytes of its unknown records.
   */
  method RunKeepsOneofs(env: Env, len: nat, t: nat) returns (r: Parse)
    requires EnvOk(env) && t < |env.types| && env.maxDepth >= 1 && len + PADDING <= |env.mem| < TWO64
    requires NoneShared(env.types) && !Meaning(env.(byWhich := true), len, t).Malformed?
    ensures r.TooBig? <==> len > MAX_INPUT
    ensures r.Parse? ==> Meaning(env.(byWhich := true), len, t) == Done(r.out)
    ensures r.Failed? ==> r.why == Meaning(env.(byWhich := true), len, t) && !r.why.Done? && !r.why.Misread?
    ensures var w := env.(byWhich := true);
            len <= MAX_INPUT ==> forall tree :: T.TreeAt(w, t, 0, len, tree) ==>
              if T.Levels(env.types, env.elide, t, tree) < env.maxDepth then r.Parse? && M.Meant(w, r.out, t, tree)
              else r == Failed(TooDeep)
    ensures r.Parse? ==> exists tree :: T.TreeAt(env.(byWhich := true), t, 0, len, tree)
    ensures r.Parse? ==> forall m ::
              BytesOf(env.mem, if m in r.unknown then r.unknown[m] else []) == UnknownBytes(env.mem, r.out.events, m)
  {
    hide TypesOk, Walk, NoneShared, T.TreeAt, T.Levels, M.Meant, StoredFor, BytesOf, UnknownBytes;
    AgreesHere(env, env.mem, len, t, env.maxDepth - 1);
    ghost var w := env.(byWhich := true);
    assert env.(mem := env.mem, byWhich := false) == env && env.(mem := env.mem, byWhich := true) == w;
    r := Run(env, len, t);
    if len <= MAX_INPUT {
      forall tree | T.TreeAt(w, t, 0, len, tree)
        ensures if T.Levels(env.types, env.elide, t, tree) < env.maxDepth then r.Parse? && M.Meant(w, r.out, t, tree)
                else r == Failed(TooDeep)
      {
        R.RoundTrip(w, len, t, env.maxDepth - 1, tree);
      }
    }
    if r.Parse? {
      ghost var tree := R.EveryParse(w, len, t, env.maxDepth - 1);
      forall m
        ensures BytesOf(env.mem, StoredFor(r.out.events, m)) == UnknownBytes(env.mem, r.out.events, m)
      {
        UnknownOfParse(env, len, t, env.maxDepth - 1, m);
      }
    }
  }
}
