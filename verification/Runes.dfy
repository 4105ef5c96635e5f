/** What the grammar of UTF-8 accepts: the encodings of scalar values, as section 3 of RFC 3629 defines them. */
module Runes {
  import opened Utf8
  import opened Words

  /** A code point that may be encoded: surrogates may not. */
  predicate Scalar(c: rune) {
    c <= 0xd7ff || 0xe000 <= c <= 0x10ffff
  }

  function EncodeRune(c: rune): seq<byte>
    requires Scalar(c)
  {
    if c <= 0x7f then [c as byte]
    else if c <= 0x7ff then [(0xc0 | (c >> 6)) as byte, Continuing(c)]
    else if c <= 0xffff then [(0xe0 | (c >> 12)) as byte, Continuing(c >> 6), Continuing(c)]
    else [(0xf0 | (c >> 18)) as byte, Continuing(c >> 12), Continuing(c >> 6), Continuing(c)]
  }

  /** A byte with the six low bits. */
  function Continuing(c: rune): byte {
    (0x80 | (c & 0x3f)) as byte
  }

  /** The bytes are the encodings of those scalar values. */
  predicate IsText(s: seq<byte>, cs: seq<rune>)
    decreases |cs|
  {
    if cs == [] then s == []
    else
      && Scalar(cs[0]) && |s| >= |EncodeRune(cs[0])| && s[..|EncodeRune(cs[0])|] == EncodeRune(cs[0])
      && IsText(s[|EncodeRune(cs[0])|..], cs[1..])
  }

  /** The scalar value of a UTF8-char of so many bytes. */
  function RuneOf(s: seq<byte>): rune
    requires 1 <= |s| <= 4
  {
    match |s|
    case 1 => s[0] as rune
    case 2 => (((s[0] & 0x1f) as rune) << 6) | ((s[1] & 0x3f) as rune)
    case 3 => (((s[0] & 0xf) as rune) << 12) | (((s[1] & 0x3f) as rune) << 6) | ((s[2] & 0x3f) as rune)
    case _ =>
      (((s[0] & 0x7) as rune) << 18) | (((s[1] & 0x3f) as rune) << 12)
      | (((s[2] & 0x3f) as rune) << 6) | ((s[3] & 0x3f) as rune)
  }

  lemma OneWritten(c: rune)
    requires c <= 0x7f
    ensures c as byte <= 0x7f
  {
  }

  lemma TwoWritten(c: rune)
    requires 0x7f < c <= 0x7ff
    ensures var a := (0xc0 | (c >> 6)) as byte; a > 0x7f && Two(a, Continuing(c))
  {
  }

  lemma ThreeWritten(c: rune)
    requires 0x7ff < c <= 0xffff && Scalar(c)
    ensures var a := (0xe0 | (c >> 12)) as byte; a > 0xdf && Three(a, Continuing(c >> 6), Continuing(c))
  {
  }

  lemma FourWritten(c: rune)
    requires 0xffff < c && Scalar(c)
    ensures var a := (0xf0 | (c >> 18)) as byte;
            a > 0xef && Four(a, Continuing(c >> 12), Continuing(c >> 6), Continuing(c))
  {
  }

  lemma NotTwo(a: byte, b: byte)
    ensures a > 0xdf ==> !Two(a, b)
  {
  }

  lemma NotThree(a: byte, b: byte, c: byte)
    ensures a > 0xef ==> !Three(a, b, c)
  {
  }

  /** The encoding of a scalar value is a UTF8-char. */
  lemma RuneWritten(mem: seq<byte>, p: nat, e: nat, c: rune)
    requires Scalar(c) && p + |EncodeRune(c)| <= e <= |mem| && mem[p..p + |EncodeRune(c)|] == EncodeRune(c)
    ensures |EncodeRune(c)| > 0 && CharLength(mem, p, e) == |EncodeRune(c)|
  {
    hide Two, Three, Four, Continuing;
    var s := mem[p..p + |EncodeRune(c)|];
    assert forall k :: 0 <= k < |s| ==> s[k] == mem[p + k];
    if c <= 0x7f {
      OneWritten(c);
    } else if c <= 0x7ff {
      TwoWritten(c);
    } else if c <= 0xffff {
      ThreeWritten(c);
      NotTwo(s[0], s[1]);
    } else {
      FourWritten(c);
      NotTwo(s[0], s[1]);
      NotThree(s[0], s[1], s[2]);
    }
  }

  lemma TwoBits(a: byte, b: byte)
    requires Two(a, b)
    ensures var c := RuneOf([a, b]); 0x7f < c <= 0x7ff && (0xc0 | (c >> 6)) as byte == a && Continuing(c) == b
  {
  }

  lemma TwoRead(a: byte, b: byte)
    requires Two(a, b)
    ensures var c := RuneOf([a, b]); Scalar(c) && EncodeRune(c) == [a, b]
  {
    TwoBits(a, b);
    hide Two, Continuing, RuneOf;
  }

  lemma ThreeBits(a: byte, b: byte, d: byte)
    requires Three(a, b, d)
    ensures var c := RuneOf([a, b, d]);
            && 0x7ff < c <= 0xffff && Scalar(c)
            && (0xe0 | (c >> 12)) as byte == a && Continuing(c >> 6) == b && Continuing(c) == d
  {
  }

  lemma ThreeRead(a: byte, b: byte, d: byte)
    requires Three(a, b, d)
    ensures var c := RuneOf([a, b, d]); Scalar(c) && EncodeRune(c) == [a, b, d]
  {
    ThreeBits(a, b, d);
    hide Three, Continuing, RuneOf;
  }

  lemma FourBits(a: byte, b: byte, d: byte, f: byte)
    requires Four(a, b, d, f)
    ensures var c := RuneOf([a, b, d, f]);
            && 0xffff < c && Scalar(c)
            && (0xf0 | (c >> 18)) as byte == a && Continuing(c >> 12) == b && Continuing(c >> 6) == d
               && Continuing(c) == f
  {
  }

  lemma FourRead(a: byte, b: byte, d: byte, f: byte)
    requires Four(a, b, d, f)
    ensures var c := RuneOf([a, b, d, f]); Scalar(c) && EncodeRune(c) == [a, b, d, f]
  {
    FourBits(a, b, d, f);
    hide Four, Continuing, RuneOf;
  }

  lemma OneRead(a: byte)
    requires a <= 0x7f
    ensures Scalar(RuneOf([a])) && EncodeRune(RuneOf([a])) == [a]
  {
  }

  /** A UTF8-char is the encoding of a scalar value. */
  lemma RuneRead(mem: seq<byte>, p: nat, e: nat) returns (c: rune)
    requires p < e <= |mem| && CharLength(mem, p, e) > 0
    ensures Scalar(c) && EncodeRune(c) == mem[p..p + CharLength(mem, p, e)]
  {
    hide Two, Three, Four, EncodeRune, RuneOf;
    var n := CharLength(mem, p, e);
    var s := mem[p..p + n];
    assert forall k :: 0 <= k < n ==> s[k] == mem[p + k];
    c := RuneOf(s);
    if n == 1 {
      OneRead(s[0]);
      assert s == [s[0]];
    } else if n == 2 {
      TwoRead(s[0], s[1]);
      assert s == [s[0], s[1]];
    } else if n == 3 {
      ThreeRead(s[0], s[1], s[2]);
      assert s == [s[0], s[1], s[2]];
    } else {
      FourRead(s[0], s[1], s[2], s[3]);
      assert s == [s[0], s[1], s[2], s[3]];
    }
  }

  lemma {:induction false} TextWritten(mem: seq<byte>, p: nat, e: nat, cs: seq<rune>)
    requires p <= e <= |mem| && IsText(mem[p..e], cs)
    ensures WellFormed(mem, p, e)
    decreases |cs|
  {
    hide EncodeRune, CharLength;
    if cs != [] {
      var n := |EncodeRune(cs[0])|;
      assert mem[p..e][..n] == mem[p..p + n] && mem[p..e][n..] == mem[p + n..e];
      RuneWritten(mem, p, e, cs[0]);
      TextWritten(mem, p + n, e, cs[1..]);
    }
  }

  lemma {:induction false} TextRead(mem: seq<byte>, p: nat, e: nat) returns (cs: seq<rune>)
    requires p <= e <= |mem| && WellFormed(mem, p, e)
    ensures IsText(mem[p..e], cs)
    decreases e - p
  {
    hide EncodeRune, CharLength;
    cs := [];
    if p < e {
      var n := CharLength(mem, p, e);
      var c := RuneRead(mem, p, e);
      var rest := TextRead(mem, p + n, e);
      cs := [c] + rest;
      assert mem[p..e][..n] == mem[p..p + n] && mem[p..e][n..] == mem[p + n..e] && cs[1..] == rest;
    }
  }

  /** The grammar accepts exactly the encodings of sequences of scalar values. */
  lemma TextExact(mem: seq<byte>, p: nat, e: nat)
    requires p <= e <= |mem|
    ensures WellFormed(mem, p, e) <==> exists cs :: IsText(mem[p..e], cs)
  {
    hide WellFormed, IsText;
    if WellFormed(mem, p, e) {
      var cs := TextRead(mem, p, e);
    }
    if cs :| IsText(mem[p..e], cs) {
      TextWritten(mem, p, e, cs);
    }
  }
}
