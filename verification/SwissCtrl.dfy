/** Control words of the Swisstable (internal/swiss/ctrl.go): eight slots compared at once. */
module SwissCtrl {
  import opened Words

  const LOWS: word := 0x0101_0101_0101_0101
  const HIGHS: word := 0x8080_8080_8080_8080
  const CTRL_SIZE: nat := 8
  const EMPTY: byte := 0

  function Broadcast(b: byte): word {
    (b as word) * LOWS
  }

  /** Subtracts one from every byte at once and keeps the sign bits that this turned on. */
  function ZeroBytes(x: word): word {
    (x - LOWS) & !x & HIGHS
  }

  function Matches(c: word, needle: word): word {
    ZeroBytes(c ^ needle)
  }

  /** The word rotated down by one byte, and whether the byte rotated out was nonzero. */
  function Next(c: word): (word, bool) {
    ((c >> 8) | (c << 56), c & 0xff != 0)
  }

  /** Trailing zeros of the match word, counted in bytes: 8 when nothing is flagged. */
  function First(c: word, needle: word): nat {
    TrailingZeros(Matches(c, needle)) / 8
  }

  predicate Flagged(m: word, i: nat)
    requires i < 8
  {
    Byte(m, i) != 0
  }

  // ----- Lemmas on words -----

  lemma BroadcastByte(b: byte, i: nat)
    requires i < 8
    ensures Byte(Broadcast(b), i) == b
  {
    hide Byte, Broadcast, Join;
    BroadcastJoin(b);
    JoinBytes(b, b, b, b, b, b, b, b);
  }

  lemma BroadcastJoin(b: byte)
    ensures Broadcast(b) == Join(b, b, b, b, b, b, b, b)
  {
  }

  lemma NextByte(c: word, i: nat)
    requires i < 7
    ensures Next(c).1 == Flagged(c, 0)
    ensures Byte(Next(c).0, i) == Byte(c, i + 1)
  {
    match i
    case 0 =>
    case 1 =>
    case 2 =>
    case 3 =>
    case 4 =>
    case 5 =>
    case 6 =>
  }

  /** A borrow out of a flagged byte also flags a byte 0x01 right above it. */
  lemma ZeroBytesExact(x: word, i: nat)
    requires i < 8
    ensures Flagged(ZeroBytes(x), i) <==>
            Byte(x, i) == 0 || (i > 0 && Byte(x, i) == 1 && Flagged(ZeroBytes(x), i - 1))
  {
    match i
    case 0 =>
    case 1 =>
    case 2 =>
    case 3 =>
    case 4 =>
    case 5 =>
    case 6 =>
    case 7 =>
  }

  lemma DifferenceFlags(x: word, c: word, d: word, i: nat)
    requires i < 8 && Byte(x, i) == Byte(c, i) ^ Byte(d, i)
    ensures Flagged(ZeroBytes(x), i) <==>
            Byte(c, i) == Byte(d, i) || (i > 0 && Byte(c, i) == Byte(d, i) ^ 1 && Flagged(ZeroBytes(x), i - 1))
  {
    hide Byte, ZeroBytes;
    ZeroBytesExact(x, i);
  }

  /** A byte is flagged iff it equals the needle's, or differs from it by 0x01 right above a flagged byte. */
  lemma MatchesExact(c: word, needle: word, i: nat)
    requires i < 8
    ensures Flagged(Matches(c, needle), i) <==>
            || Byte(c, i) == Byte(needle, i)
            || (i > 0 && Byte(c, i) == Byte(needle, i) ^ 1 && Flagged(Matches(c, needle), i - 1))
  {
    hide Byte, ZeroBytes, Flagged;
    XorByte(c, needle, i);
    DifferenceFlags(c ^ needle, c, needle, i);
  }

  // ----- Lemmas on the control bytes of a table -----

  /** Matching the window at p against b flags every slot that holds b, and otherwise only slots that hold b ^ 1. */
  lemma WindowMatches(ctrl: seq<byte>, p: nat, b: byte, i: nat)
    requires p + 8 <= |ctrl| && i < 8
    ensures var m := Matches(Load(ctrl, p), Broadcast(b));
            && (ctrl[p + i] == b ==> Flagged(m, i))
            && (Flagged(m, i) ==> ctrl[p + i] == b || (i > 0 && ctrl[p + i] == b ^ 1 && Flagged(m, i - 1)))
  {
    hide Byte, Matches, Load, Broadcast, Flagged;
    MatchesExact(Load(ctrl, p), Broadcast(b), i);
    BroadcastByte(b, i);
    LoadByte(ctrl, p, i);
  }

  /** `first` finds the lowest slot of the window at p that holds b: the borrow never flags below a true match. */
  lemma FirstExact(ctrl: seq<byte>, p: nat, b: byte)
    requires p + 8 <= |ctrl|
    ensures var n := First(Load(ctrl, p), Broadcast(b));
            && n <= 8
            && (n < 8 ==> ctrl[p + n] == b)
            && (forall s :: p <= s < p + n ==> ctrl[s] != b)
  {
    hide Byte, Matches, Load, Broadcast, TrailingZeros, LowestByte;
    var m := Matches(Load(ctrl, p), Broadcast(b));
    TrailingZerosBytes(m);
    LowestByteExact(m);
    var n := First(Load(ctrl, p), Broadcast(b));
    if n < 8 {
      WindowMatches(ctrl, p, b, n);
    }
    forall s | p <= s < p + n
      ensures ctrl[s] != b
    {
      WindowMatches(ctrl, p, b, s - p);
    }
  }
}
