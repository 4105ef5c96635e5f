/** Packed varints: their values, and how many there are (internal/tdp/thunks/repeated.go). */
module VarintCount {
  import opened Base128
  import opened Utf8
  import opened Words
  import opened Wire
  import opened Wrappers

  lemma VarintsStep(mem: seq<byte>, p: nat, e: nat)
    requires e + PADDING <= |mem| && p < e && Varints(mem, p, e).Some?
    ensures VarintIn(mem, p, e, 10).Some?
    ensures var (v, q) := VarintIn(mem, p, e, 10).value;
            Varints(mem, q, e).Some? && Varints(mem, p, e).value == [v] + Varints(mem, q, e).value
  {
    hide VarintIn;
  }

  /** How many of the bytes from p to e end a varint. */
  function Ends(mem: seq<byte>, p: nat, e: nat): (n: nat)
    requires p <= e <= |mem|
    ensures n <= e - p
    decreases e - p
  {
    if p == e then 0 else (if More(mem[p]) then 0 else 1) + Ends(mem, p + 1, e)
  }

  lemma {:induction false} EndsSplit(mem: seq<byte>, p: nat, q: nat, e: nat)
    requires p <= q <= e <= |mem|
    ensures Ends(mem, p, e) == Ends(mem, p, q) + Ends(mem, q, e)
    decreases q - p
  {
    hide More;
    if p < q {
      EndsSplit(mem, p + 1, q, e);
    }
  }

  /** A varint has one end. */
  lemma {:induction false} EndsOfVarint(mem: seq<byte>, p: nat, q: nat)
    requires p < q <= |mem| && IsVarint(mem[p..q])
    ensures Ends(mem, p, q) == 1
    decreases q - p
  {
    hide More;
    var s := mem[p..q];
    assert mem[p] == s[0];
    if q == p + 1 {
      assert Ends(mem, q, q) == 0;
    } else {
      var t := mem[p + 1..q];
      assert forall i :: 0 <= i < |t| ==> t[i] == s[i + 1];
      EndsOfVarint(mem, p + 1, q);
    }
  }

  /** There are as many varints as there are ends. */
  lemma {:induction false} EndsExact(mem: seq<byte>, p: nat, e: nat)
    requires e + PADDING <= |mem| && p <= e && Varints(mem, p, e).Some?
    ensures |Varints(mem, p, e).value| == Ends(mem, p, e)
    decreases e - p
  {
    hide IsVarint, VarintIn, More;
    if p < e {
      VarintsStep(mem, p, e);
      var q := VarintIn(mem, p, e, 10).value.1;
      EndsOfVarint(mem, p, q);
      EndsSplit(mem, p, q, e);
      EndsExact(mem, q, e);
    }
  }

  lemma {:induction false} EndsAll(mem: seq<byte>, p: nat, e: nat)
    requires p <= e <= |mem| && Ends(mem, p, e) == e - p
    ensures forall i :: p <= i < e ==> !More(mem[i])
    decreases e - p
  {
    hide More;
    if p < e {
      EndsAll(mem, p + 1, e);
    }
  }

  /** Two bytes of which the first continues. */
  lemma TwoBytes(mem: seq<byte>, p: nat, e: nat)
    requires e + PADDING <= |mem| && p + 1 < e && More(mem[p]) && !More(mem[p + 1])
    ensures VarintIn(mem, p, e, 10) == Some((Low7(mem[p]) + 128 * (mem[p + 1] as nat), p + 2))
  {
    hide Low7, More;
    assert VarintLength(mem, p + 1, 9) == 1;
    assert VarintLength(mem, p, 10) == 2;
    var s := mem[p..p + 2];
    assert s[1..][1..] == [] && Value(s[1..]) == Low7(s[1]);
    assert Value(s) == Low7(s[0]) + 128 * Low7(s[1]);
    ByteValue(mem[p + 1]);
  }

  /** When every byte ends a varint, the values are the bytes. */
  lemma {:induction false} AllOneByte(mem: seq<byte>, p: nat, e: nat)
    requires e + PADDING <= |mem| && p <= e && forall i :: p <= i < e ==> !More(mem[i])
    ensures Varints(mem, p, e) == Some(Borrowed(mem, p, 1, e - p))
    decreases e - p
  {
    hide More, VarintIn;
    if p < e {
      OneByte(mem, p, e);
      AllOneByte(mem, p + 1, e);
      assert LittleEndian(mem, p + 1, 0) == 0;
    }
  }

  // ----- Counting eight bytes at a time -----

  /** The number of one bits of a byte. */
  function OnesCount8(b: byte): nat {
    (if b & 0x01 != 0 then 1 else 0) + (if b & 0x02 != 0 then 1 else 0) + (if b & 0x04 != 0 then 1 else 0)
    + (if b & 0x08 != 0 then 1 else 0) + (if b & 0x10 != 0 then 1 else 0) + (if b & 0x20 != 0 then 1 else 0)
    + (if b & 0x40 != 0 then 1 else 0) + (if b & 0x80 != 0 then 1 else 0)
  }

  /** bits.OnesCount64. */
  function OnesCount64(w: word): nat {
    OnesCount8(Byte(w, 0)) + OnesCount8(Byte(w, 1)) + OnesCount8(Byte(w, 2)) + OnesCount8(Byte(w, 3))
    + OnesCount8(Byte(w, 4)) + OnesCount8(Byte(w, 5)) + OnesCount8(Byte(w, 6)) + OnesCount8(Byte(w, 7))
  }

  lemma SignCount(b: byte)
    ensures OnesCount8(AndBytes(b, 0x80)) == if More(b) then 1 else 0
    ensures OnesCount8(AndBytes(b, 0)) == 0
  {
  }

  function Below(j: nat, n: nat): nat {
    if j < n then 1 else 0
  }

  function End1(mem: seq<byte>, p: nat, n: nat, j: nat): nat
    requires p + 8 <= |mem| && j < 8
  {
    if j < n && !More(mem[p + j]) then 1 else 0
  }

  /** What byte j of the masked word adds to the count. */
  lemma MaskedCount(mem: seq<byte>, p: nat, n: nat, j: nat)
    requires p + 8 <= |mem| && 1 <= n <= 8 && j < 8
    ensures OnesCount8(Byte(AndWords(Load(mem, p), SignMask(n)), j)) + End1(mem, p, n, j) == Below(j, n)
  {
    hide Byte, Load, AndWords, AndBytes, SignMask, LowSigns, More, OnesCount8;
    AndByte(Load(mem, p), SignMask(n), j);
    SignMaskLow(n);
    LowSignsByte(n, j);
    LoadByte(mem, p, j);
    SignCount(mem[p + j]);
  }

  /** The count of sign bits among the first n bytes of a word is the number of bytes that do not end a varint. */
  lemma WordCount(mem: seq<byte>, p: nat, n: nat)
    requires p + 8 <= |mem| && 1 <= n <= 8
    ensures OnesCount64(AndWords(Load(mem, p), SignMask(n))) == n - Ends(mem, p, p + n)
  {
    hide Byte, Load, AndWords, SignMask, OnesCount8, Ends, End1;
    MaskedCount(mem, p, n, 0);
    MaskedCount(mem, p, n, 1);
    MaskedCount(mem, p, n, 2);
    MaskedCount(mem, p, n, 3);
    MaskedCount(mem, p, n, 4);
    MaskedCount(mem, p, n, 5);
    MaskedCount(mem, p, n, 6);
    MaskedCount(mem, p, n, 7);
    EndsTerms(mem, p, n);
    assert n == Below(0, n) + Below(1, n) + Below(2, n) + Below(3, n) + Below(4, n) + Below(5, n) + Below(6, n)
      + Below(7, n);
  }

  lemma EndsTerms(mem: seq<byte>, p: nat, n: nat)
    requires p + 8 <= |mem| && 1 <= n <= 8
    ensures Ends(mem, p, p + n) ==
            End1(mem, p, n, 0) + End1(mem, p, n, 1) + End1(mem, p, n, 2) + End1(mem, p, n, 3)
            + End1(mem, p, n, 4) + End1(mem, p, n, 5) + End1(mem, p, n, 6) + End1(mem, p, n, 7)
  {
    hide Ends, End1;
    EndsStep(mem, p, n, 0);
    EndsStep(mem, p, n, 1);
    EndsStep(mem, p, n, 2);
    EndsStep(mem, p, n, 3);
    EndsStep(mem, p, n, 4);
    EndsStep(mem, p, n, 5);
    EndsStep(mem, p, n, 6);
    EndsStep(mem, p, n, 7);
  }

  lemma EndsStep(mem: seq<byte>, p: nat, n: nat, j: nat)
    requires p + 8 <= |mem| && n <= 8 && j < 8
    ensures j < n ==> Ends(mem, p + j, p + n) == End1(mem, p, n, j) + Ends(mem, p + j + 1, p + n)
    ensures j >= n ==> End1(mem, p, n, j) == 0
    ensures Ends(mem, p + n, p + n) == 0
  {
  }

  /** The counting loop of parsePackedVarint: n less the number of sign bits, a word at a time. */
  method CountVarints(mem: seq<byte>, ptr: nat, end: nat) returns (count: nat)
    requires ptr < end && end + PADDING <= |mem|
    ensures count == Ends(mem, ptr, end)
  {
    hide OnesCount64, AndWords, Load, SignMask, Ends;
    var p := ptr;
    var e8 := ptr + (end - ptr) / 8 * 8;
    var signs := 0;
    NoEnds(mem, ptr);
    while p < e8
      invariant ptr <= p <= e8 <= end && (e8 - p) % 8 == 0
      invariant signs == (p - ptr) - Ends(mem, ptr, p)
      decreases e8 - p
    {
      WordCount(mem, p, 8);
      FullMask();
      EndsSplit(mem, ptr, p, p + 8);
      signs := signs + OnesCount64(AndWords(Load(mem, p), SIGN_BITS));
      p := p + 8;
    }
    EndsSplit(mem, ptr, p, end);
    NoEnds(mem, end);
    if p < end {
      WordCount(mem, p, end - p);
      signs := signs + OnesCount64(AndWords(Load(mem, p), SignMask(end - p)));
    }
    count := (end - ptr) - signs;
  }

  lemma NoEnds(mem: seq<byte>, p: nat)
    requires p <= |mem|
    ensures Ends(mem, p, p) == 0
  {
  }

  lemma FullMask()
    ensures SignMask(8) == SIGN_BITS
  {
  }
}
