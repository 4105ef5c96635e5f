/** Powers of two, bit counts, remainders and finite counting. */
module Bits {

  function Pow2(k: nat): (p: nat)
    ensures p > 0
  {
    if k == 0 then 1 else 2 * Pow2(k - 1)
  }

  ghost predicate IsPow2(n: nat) {
    exists k: nat :: n == Pow2(k)
  }

  /** The number of bits needed to write n. */
  function BitLen(n: nat): nat {
    if n == 0 then 0 else 1 + BitLen(n / 2)
  }

  /** The number of one bits of n. */
  function OnesCount(n: nat): nat {
    if n == 0 then 0 else n % 2 + OnesCount(n / 2)
  }

  lemma {:induction false} OnesCountPow2(n: nat)
    ensures OnesCount(n) == 0 <==> n == 0
    ensures OnesCount(n) == 1 <==> IsPow2(n)
  {
    if n == 0 {
      assert forall k: nat :: Pow2(k) > 0;
    } else if n == 1 {
      assert n == Pow2(0);
    } else {
      OnesCountPow2(n / 2);
      if IsPow2(n) {
        var k: nat :| n == Pow2(k);
        assert k > 0 && n / 2 == Pow2(k - 1);
      }
      if OnesCount(n) == 1 && n % 2 == 0 {
        var k: nat :| n / 2 == Pow2(k);
        assert n == Pow2(k + 1);
      }
    }
  }

  lemma {:induction false} BitLenBounds(n: nat)
    ensures n < Pow2(BitLen(n))
    ensures n > 0 ==> Pow2(BitLen(n)) <= 2 * n
  {
    if n > 0 {
      BitLenBounds(n / 2);
    }
  }

  lemma {:induction false} Pow2Divides8(k: nat)
    requires Pow2(k) >= 8
    ensures k >= 3 && Pow2(k) == 8 * Pow2(k - 3)
  {
    assert Pow2(1) == 2 && Pow2(2) == 4;
    if k >= 3 {
      assert Pow2(k) == 2 * Pow2(k - 1) == 4 * Pow2(k - 2) == 8 * Pow2(k - 3);
    }
  }

  // ----- Remainders -----

  lemma ModAdd(a: int, b: int, m: int)
    requires m > 0
    ensures (a % m + b) % m == (a + b) % m
  {
    assert a + b == (a % m + b) + a / m * m;
    ModMultiple(a % m + b, a / m, m);
  }

  lemma ModMultiple(a: int, q: int, m: int)
    requires m > 0
    ensures (a + q * m) % m == a % m
  {
    ModUnique(a + q * m, a / m + q, a % m, m);
  }

  lemma MulBounds(d: int, m: int)
    requires m > 0
    ensures d >= 1 ==> d * m >= m
    ensures d <= -1 ==> d * m <= -m
  {
  }

  lemma Distribute(a: int, b: int, m: int)
    ensures (a + b) * m == a * m + b * m
  {
  }

  /** Quotient and remainder are unique. */
  lemma ModUnique(a: int, q: int, r: int, m: int)
    requires m > 0 && 0 <= r < m && a == q * m + r
    ensures a % m == r && a / m == q
  {
    var q0, r0 := a / m, a % m;
    assert a == q0 * m + r0;
    var d := q - q0;
    Distribute(q0, d, m);
    MulBounds(d, m);
    assert d * m == r0 - r;
  }

  // ----- Counting -----

  function Range(n: nat): set<nat> {
    if n == 0 then {} else Range(n - 1) + {n - 1}
  }

  lemma {:induction false} RangeExact(n: nat)
    ensures |Range(n)| == n && forall j :: j in Range(n) <==> 0 <= j < n
  {
    if n > 0 {
      RangeExact(n - 1);
    }
  }

  function Image(f: nat -> nat, n: nat): set<nat> {
    if n == 0 then {} else Image(f, n - 1) + {f(n - 1)}
  }

  lemma {:induction false} ImageHas(f: nat -> nat, n: nat, w: nat)
    ensures w in Image(f, n) <==> exists j :: 0 <= j < n && f(j) == w
  {
    if n > 0 {
      ImageHas(f, n - 1, w);
    }
  }

  lemma {:induction false} ImageSize(f: nat -> nat, n: nat)
    requires forall i, j :: 0 <= i < j < n ==> f(i) != f(j)
    ensures |Image(f, n)| == n
  {
    if n > 0 {
      ImageSize(f, n - 1);
      ImageHas(f, n - 1, f(n - 1));
    }
  }

  /** An injection of [0, n) into itself hits everything. */
  lemma Pigeonhole(f: nat -> nat, n: nat, w: nat)
    requires forall j :: 0 <= j < n ==> f(j) < n
    requires forall i, j :: 0 <= i < j < n ==> f(i) != f(j)
    requires w < n
    ensures exists j :: 0 <= j < n && f(j) == w
  {
    ImageSize(f, n);
    RangeExact(n);
    forall v | v in Image(f, n)
      ensures v in Range(n)
    {
      ImageHas(f, n, v);
    }
    ImageHas(f, n, w);
    SubsetSameSize(Image(f, n), Range(n));
    assert w in Range(n);
  }

  lemma SubsetSameSize<T>(a: set<T>, b: set<T>)
    requires a <= b && |a| == |b|
    ensures a == b
  {
    if a != b {
      var x :| x in b && x !in a;
      assert |a + {x}| <= |b| by {
        SubsetSize(a + {x}, b);
      }
    }
  }

  lemma {:induction false} SubsetSize<T>(a: set<T>, b: set<T>)
    requires a <= b
    ensures |a| <= |b|
    decreases a
  {
    if a != {} {
      var x :| x in a;
      SubsetSize(a - {x}, b - {x});
    }
  }
}
