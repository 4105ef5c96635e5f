/** Block sizes and slice sizes (internal/arena/alloc.go, internal/arena/slice/slice.go). */
module ArenaSize {
  import opened Bits

  const ALIGN: nat := 8
  const TWO32: nat := 0x1_0000_0000

  /** The largest size whose power of two fits in an int. */
  const MAX_SIZE: nat := 0x4000_0000_0000_0000

  /** Rounds up to a pointer boundary. */
  function RoundUp(size: nat): (r: nat)
    ensures size <= r < size + ALIGN && r % ALIGN == 0
    ensures size % ALIGN == 0 ==> r == size
  {
    (size + ALIGN - 1) / ALIGN * ALIGN
  }

  /** bits.Len of a 64-bit word: of size - 1, which wraps for zero, and at least 6. */
  function SuggestLog(size: nat): nat {
    var n := if size == 0 then 64 else BitLen(size - 1);
    if n < 6 then 6 else n
  }

  /** 1 << SuggestLog(size), in a 64-bit int. */
  function SuggestSize(size: nat): nat {
    if size == 0 then 0 else Pow2(SuggestLog(size))
  }

  lemma {:induction false} Pow2Grows(i: nat, j: nat)
    requires i < j
    ensures 2 * Pow2(i) <= Pow2(j)
  {
    if i + 1 < j {
      Pow2Grows(i, j - 1);
    }
  }

  lemma Pow2At62()
    ensures Pow2(62) == MAX_SIZE && Pow2(5) == 32 && Pow2(6) == 64
  {
    assert Pow2(6) == 64;
    assert Pow2(14) == 0x4000;
    assert Pow2(22) == 0x40_0000;
    assert Pow2(30) == 0x4000_0000;
    assert Pow2(38) == 0x40_0000_0000;
    assert Pow2(46) == 0x4000_0000_0000;
    assert Pow2(54) == 0x40_0000_0000_0000;
  }

  /** The suggested size is the least power of two, from 64 on, that is large enough. */
  lemma SuggestExact(size: nat)
    requires size > 0
    ensures Pow2(SuggestLog(size)) >= size && Pow2(SuggestLog(size)) >= 64 && SuggestLog(size) >= 6
    ensures Pow2(SuggestLog(size)) == 64 || Pow2(SuggestLog(size)) < 2 * size
    ensures Pow2(SuggestLog(size)) % ALIGN == 0
    ensures forall k: nat :: k >= 6 && Pow2(k) >= size ==> k >= SuggestLog(size)
  {
    hide Pow2;
    Pow2At62();
    BitLenBounds(size - 1);
    var log := SuggestLog(size);
    if log > 6 {
      Pow2Grows(6, log);
    }
    if BitLen(size - 1) < 6 {
      Pow2Grows(BitLen(size - 1), 6);
    }
    Pow2Divides8(log);
    forall k: nat | k >= 6 && Pow2(k) >= size
      ensures k >= log
    {
      if k < log {
        Pow2Grows(k, log);
      }
    }
  }

  lemma SuggestMonotone(a: nat, b: nat)
    requires 0 < a <= b
    ensures SuggestLog(a) <= SuggestLog(b)
  {
    SuggestExact(a);
    SuggestExact(b);
  }

  lemma SuggestFixed(size: nat)
    requires size > 0
    ensures SuggestLog(Pow2(SuggestLog(size))) == SuggestLog(size)
  {
    hide Pow2;
    SuggestExact(size);
    var s := Pow2(SuggestLog(size));
    SuggestExact(s);
    assert SuggestLog(s) <= SuggestLog(size);
    SuggestMonotone(size, s);
  }

  /**
   A slice remembers only how many elements fit. The size recomputed from that is the size that was allocated,
   for every element size.
   */
  lemma SizeRecomputed(elem: nat, n: nat)
    requires elem > 0 && n > 0
    ensures var s := SuggestSize(elem * n); s / elem >= n && SuggestSize(elem * (s / elem)) == s
  {
    hide Pow2, SuggestLog;
    Product(elem, n);
    SuggestExact(elem * n);
    var s := Pow2(SuggestLog(elem * n));
    var k := s / elem;
    Fits(elem, n, s);
    Product(elem, k);
    SuggestMonotone(elem * n, elem * k);
    SuggestMonotone(elem * k, s);
    SuggestFixed(elem * n);
  }

  lemma Product(a: nat, b: nat)
    requires a > 0 && b > 0
    ensures a * b > 0 && a * b >= b
  {
    MulBounds(a, b);
  }

  /** If n elements fit in s bytes, then so do s / elem, and no more. */
  lemma Fits(elem: nat, n: nat, s: nat)
    requires elem > 0 && elem * n <= s
    ensures s / elem >= n && elem * n <= elem * (s / elem) <= s < elem * (s / elem + 1)
  {
    var k := s / elem;
    assert s == elem * k + s % elem;
    Distribute(k, 1, elem);
    if k < n {
      Scaled(k + 1, n, elem);
    } else {
      Scaled(n, k, elem);
    }
  }

  lemma Scaled(a: nat, b: nat, m: nat)
    requires a <= b
    ensures a * m <= b * m
  {
    Distribute(a, b - a, m);
  }

  /** uint32(size) / uint32(elem): the capacity that Grow records. */
  function GrownCap(elem: nat, size: nat): nat
    requires elem > 0
  {
    size % TWO32 / elem
  }

  /** A slice grown to 4 GiB or more loses its capacity: the recorded one is right exactly below that. */
  lemma GrownCapExact(elem: nat, n: nat)
    requires 0 < elem && 0 < n && elem * n <= MAX_SIZE
    ensures var s := SuggestSize(elem * n);
            (GrownCap(elem, s) == s / elem <==> s < TWO32) && (s >= TWO32 ==> GrownCap(elem, s) == 0)
  {
    hide Pow2, SuggestLog;
    Product(elem, n);
    SuggestExact(elem * n);
    var log := SuggestLog(elem * n);
    var s := Pow2(log);
    SizeRecomputed(elem, n);
    Pow2At32(log);
    if s >= TWO32 {
      assert s % TWO32 == 0;
      assert 0 / elem == 0;
    }
  }

  lemma Pow2At32(log: nat)
    ensures Pow2(log) >= TWO32 ==> Pow2(log) % TWO32 == 0
    ensures Pow2(log) < TWO32 ==> Pow2(log) % TWO32 == Pow2(log)
  {
    assert Pow2(8) == 0x100;
    assert Pow2(16) == 0x1_0000;
    assert Pow2(24) == 0x100_0000;
    assert Pow2(32) == TWO32;
    if log >= 32 {
      Pow2Multiple(log - 32);
    } else {
      Pow2Grows(log, 32);
    }
  }

  lemma {:induction false} Pow2Multiple(k: nat)
    ensures Pow2(k + 32) == Pow2(k) * Pow2(32) && Pow2(32) == TWO32 && Pow2(k + 32) % TWO32 == 0
  {
    assert Pow2(8) == 0x100;
    assert Pow2(16) == 0x1_0000;
    assert Pow2(24) == 0x100_0000;
    assert Pow2(32) == TWO32;
    if k > 0 {
      Pow2Multiple(k - 1);
      assert Pow2(k + 32) == 2 * Pow2(k - 1 + 32);
    }
    assert (Pow2(k) * TWO32) % TWO32 == 0;
  }
}
