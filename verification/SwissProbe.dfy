/** Table sizes and triangular probing (internal/swiss/table.go and ctrl.go), as arithmetic. */
module SwissProbe {
  import opened Bits

  // ----- loadFactor -----

  const MIN_ENTRIES: nat := 7
  const MAX_ENTRIES: nat := 0x7fff_ffff / 8

  function LoadFactor(len: nat): (nat, nat) {
    var e := if len < MIN_ENTRIES then MIN_ENTRIES else len;
    var n := e * 8 / 7;
    var hard := if OnesCount(n) != 1 then Pow2(BitLen(n)) else n;
    (hard / 8 * 7, hard)
  }

  /** The hard cap is a power of two and a multiple of 8; the soft cap is 7/8 of it and holds len entries. */
  lemma LoadFactorExact(len: nat)
    ensures var (soft, hard) := LoadFactor(len);
            && IsPow2(hard) && hard >= 8 && hard % 8 == 0
            && 8 * soft == 7 * hard
            && len <= soft < hard
    ensures len <= MAX_ENTRIES ==> LoadFactor(len).1 < 0x1_0000_0000
  {
    var e := if len < MIN_ENTRIES then MIN_ENTRIES else len;
    var n := e * 8 / 7;
    var (soft, hard) := LoadFactor(len);
    OnesCountPow2(n);
    BitLenBounds(n);
    assert IsPow2(hard);
    var k: nat :| hard == Pow2(k);
    Pow2Divides8(k);
  }

  // ----- Triangular probing -----

  /** The sum 1 + 2 + ... + j. */
  function Triangle(j: nat): nat {
    if j == 0 then 0 else Triangle(j - 1) + j
  }

  /** Where the j-th window of the probe sequence from hash part h1 starts. */
  function ProbeAt(h1: nat, hard: nat, j: nat): (p: nat)
    requires hard > 0
    ensures p < hard
  {
    Mask(h1 + 8 * Triangle(j), hard)
  }

  /** n & (hard - 1), for a power of two `hard`. */
  function Mask(n: int, hard: nat): (p: nat)
    requires hard > 0
    ensures p < hard
  {
    n % hard
  }

  lemma {:induction false} TriangleTwice(j: nat)
    ensures 2 * Triangle(j) == j * (j + 1)
  {
    if j > 0 {
      TriangleTwice(j - 1);
    }
  }

  /** prober.next: adding 8, 16, 24, ... and masking steps through ProbeAt. */
  lemma ProbeStep(h1: nat, hard: nat, j: nat)
    requires hard > 0
    ensures ProbeAt(h1, hard, j + 1) == Mask(ProbeAt(h1, hard, j) + 8 * (j + 1), hard)
  {
    ModAdd(h1 + 8 * Triangle(j), 8 * (j + 1), hard);
  }

  /** 2^k divides an odd number times b only if it divides b. */
  lemma {:induction false} OddFactor(a: int, b: int, q: int, k: nat) returns (c: int)
    requires a % 2 == 1 && a * b == q * Pow2(k)
    ensures b == c * Pow2(k)
    decreases k
  {
    if k == 0 {
      c := b;
    } else {
      DoubleProduct(q, Pow2(k - 1));
      EvenFactor(a, b, q * Pow2(k - 1));
      c := OddFactor(a, b / 2, q, k - 1);
      DoubleProduct(c, Pow2(k - 1));
    }
  }

  lemma EvenFactor(a: int, b: int, h: int)
    requires a % 2 == 1 && a * b == 2 * h
    ensures b == 2 * (b / 2) && a * (b / 2) == h
  {
    var x := a / 2;
    Distribute(x, x, b);
    Distribute(2 * x, 1, b);
    assert b % 2 == 0;
    DoubleProduct(a, b / 2);
  }

  /** An odd number times something strictly between 0 and 2^k is no multiple of 2^k. */
  lemma OddFactorTooSmall(a: int, b: int, q: int, k: nat)
    requires a % 2 == 1 && 0 < b < Pow2(k)
    ensures a * b != q * Pow2(k)
  {
    if a * b == q * Pow2(k) {
      var c := OddFactor(a, b, q, k);
      NoMultipleBetween(b, c, Pow2(k));
    }
  }

  lemma MixedParity(a: int, b: int, t: int, q: int, k: nat)
    requires a * b == 2 * t && a % 2 != b % 2
    requires 0 < a < Pow2(k + 1) && 0 < b < Pow2(k + 1)
    ensures t != q * Pow2(k)
  {
    assert Pow2(k + 1) == 2 * Pow2(k);
    DoubleProduct(q, Pow2(k));
    if a % 2 == 1 {
      OddFactorTooSmall(a, b, q, k + 1);
    } else {
      Commute(a, b);
      OddFactorTooSmall(b, a, q, k + 1);
    }
  }

  /** Twice the difference of two triangular numbers is the product of an odd and an even number. */
  lemma TriangleFactors(i: nat, j: nat) returns (a: nat, b: nat)
    requires i < j
    ensures 0 < a <= j && 0 < b <= 2 * j && a % 2 != b % 2
    ensures a * b == 2 * (Triangle(j) - Triangle(i))
  {
    hide Triangle;
    a, b := j - i, j + i + 1;
    TriangleTwice(i);
    TriangleTwice(j);
    Factors(i, j);
  }

  lemma Factors(i: int, j: int)
    ensures (j - i) * (j + i + 1) == j * (j + 1) - i * (i + 1)
  {
  }

  /** Distinct triangular numbers below index 2^k differ modulo 2^k. */
  lemma TriangleInjective(i: nat, j: nat, k: nat, q: int)
    requires i < j < Pow2(k)
    ensures Triangle(j) - Triangle(i) != q * Pow2(k)
  {
    var a, b := TriangleFactors(i, j);
    assert Pow2(k + 1) == 2 * Pow2(k);
    MixedParity(a, b, Triangle(j) - Triangle(i), q, k);
  }

  lemma DoubleProduct(q: int, p: int)
    ensures 2 * (q * p) == q * (2 * p)
  {
  }

  lemma Commute(a: int, b: int)
    ensures a * b == b * a
  {
  }

  lemma NoMultipleBetween(b: int, c: int, m: int)
    requires 0 < b < m
    ensures b != c * m
  {
    MulBounds(c, m);
  }

  // ----- Every window is probed exactly once -----

  /** The windows probed from h1, numbered relative to h1's offset within a group of eight. */
  function WindowAt(h1: nat, n: nat, j: nat): nat
    requires n > 0
  {
    (h1 / 8 + Triangle(j)) % n
  }

  lemma ProbeIsWindow(h1: nat, n: nat, j: nat)
    requires n > 0
    ensures ProbeAt(h1, 8 * n, j) == 8 * WindowAt(h1, n, j) + h1 % 8
  {
    var t := h1 / 8 + Triangle(j);
    var q, w := t / n, t % n;
    assert h1 + 8 * Triangle(j) == 8 * t + h1 % 8 == q * (8 * n) + (8 * w + h1 % 8);
    ModUnique(h1 + 8 * Triangle(j), q, 8 * w + h1 % 8, 8 * n);
  }

  lemma SameRemainder(x: int, y: int, m: int)
    requires m > 0 && x % m == y % m
    ensures y - x == (y / m - x / m) * m
  {
    Distribute(y / m, -(x / m), m);
    assert x == x / m * m + x % m && y == y / m * m + y % m;
  }

  lemma WindowInjective(h1: nat, k: nat, i: nat, j: nat)
    requires i < j < Pow2(k)
    ensures WindowAt(h1, Pow2(k), i) != WindowAt(h1, Pow2(k), j)
  {
    var n := Pow2(k);
    var x, y := h1 / 8 + Triangle(i), h1 / 8 + Triangle(j);
    if x % n == y % n {
      SameRemainder(x, y, n);
      TriangleInjective(i, j, k, y / n - x / n);
    }
  }

  /** From any start, the first hard/8 probes cover every slot: the windows tile the table. */
  lemma ProbesCover(h1: nat, hard: nat, slot: nat) returns (j: nat, d: nat)
    requires IsPow2(hard) && hard >= 8 && slot < hard
    ensures j < hard / 8 && d < 8 && slot == Mask(ProbeAt(h1, hard, j) + d, hard)
  {
    var k: nat :| hard == Pow2(k);
    Pow2Divides8(k);
    var n := Pow2(k - 3);
    var r := h1 % 8;
    // Slot lies at distance d above the start of window w.
    var x := (slot - r) % hard;
    var w := x / 8;
    d := x % 8;
    var f := (i: nat) => WindowAt(h1, n, i);
    forall a, b | 0 <= a < b < n
      ensures f(a) != f(b)
    {
      WindowInjective(h1, k - 3, a, b);
    }
    Pigeonhole(f, n, w);
    j :| 0 <= j < n && f(j) == w;
    ProbeIsWindow(h1, n, j);
    assert ProbeAt(h1, hard, j) + d == x + r;
    ModAdd(slot - r, r, hard);
    assert slot % hard == slot by { ModUnique(slot, 0, slot, hard); }
  }

  /** No two of the first hard/8 probes start in the same place. */
  lemma ProbesDistinct(h1: nat, hard: nat, i: nat, j: nat)
    requires IsPow2(hard) && hard >= 8 && i < j < hard / 8
    ensures ProbeAt(h1, hard, i) != ProbeAt(h1, hard, j)
  {
    var k: nat :| hard == Pow2(k);
    Pow2Divides8(k);
    WindowInjective(h1, k - 3, i, j);
    ProbeIsWindow(h1, Pow2(k - 3), i);
    ProbeIsWindow(h1, Pow2(k - 3), j);
  }
}
