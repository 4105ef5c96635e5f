/** Little-endian numbers in memory: the elements of repeated fields and of pointer slices. */
module Numbers {
  import opened Base128
  import opened Bits
  import opened Wire
  import opened Words

  /** The n bytes of a number, the least significant first. */
  function LittleBytes(v: nat, n: nat): (r: seq<byte>)
    ensures |r| == n
  {
    if n == 0 then [] else [ByteOf(v % 256)] + LittleBytes(v / 256, n - 1)
  }

  lemma {:induction false} LittleExact(mem: seq<byte>, p: nat, v: nat, n: nat)
    requires p + n <= |mem| && mem[p..p + n] == LittleBytes(v, n) && v < Limit(n)
    ensures LittleEndian(mem, p, n) == v
    decreases n
  {
    hide ByteOf;
    if n > 0 {
      ByteOfValue(v % 256);
      assert mem[p] == mem[p..p + n][0];
      assert mem[p + 1..p + n] == mem[p..p + n][1..] == LittleBytes(v / 256, n - 1);
      LittleExact(mem, p + 1, v / 256, n - 1);
    }
  }

  /** A number depends on its bytes alone. */
  lemma {:induction false} LittleSame(a: seq<byte>, p: nat, b: seq<byte>, q: nat, n: nat)
    requires p + n <= |a| && q + n <= |b| && a[p..p + n] == b[q..q + n]
    ensures LittleEndian(a, p, n) == LittleEndian(b, q, n)
    decreases n
  {
    if n > 0 {
      assert a[p] == a[p..p + n][0] == b[q..q + n][0] == b[q];
      assert a[p + 1..p + n] == a[p..p + n][1..] && b[q + 1..q + n] == b[q..q + n][1..];
      LittleSame(a, p + 1, b, q + 1, n - 1);
    }
  }

  lemma {:induction false} LittleFits(mem: seq<byte>, p: nat, n: nat)
    requires p + n <= |mem|
    ensures LittleEndian(mem, p, n) < Limit(n)
    decreases n
  {
    if n > 0 {
      LittleFits(mem, p + 1, n - 1);
    }
  }

  /** The numbers of n bytes each that the bytes spell, one after another. */
  function Numbers(bytes: seq<byte>, n: nat): seq<nat>
    requires n > 0
    decreases |bytes|
  {
    if |bytes| < n then []
    else Numbers(bytes[..|bytes| - n], n) + [LittleEndian(bytes, |bytes| - n, n)]
  }

  /** Storing one more number adds it at the end. */
  lemma NumbersMore(bytes: seq<byte>, v: nat, n: nat)
    requires n > 0 && v < Limit(n)
    ensures Numbers(bytes + LittleBytes(v, n), n) == Numbers(bytes, n) + [v]
  {
    hide LittleBytes, Limit;
    var more := bytes + LittleBytes(v, n);
    assert more[..|more| - n] == bytes && more[|bytes|..|bytes| + n] == LittleBytes(v, n);
    LittleExact(more, |bytes|, v, n);
  }

  /** As many numbers as fit, and where they are. */
  lemma {:induction false} NumbersExact(bytes: seq<byte>, n: nat, count: nat)
    requires n > 0 && |bytes| == count * n
    ensures |Numbers(bytes, n)| == count
    ensures forall i :: 0 <= i < count ==>
            0 <= i * n && i * n + n <= |bytes| && Numbers(bytes, n)[i] == LittleEndian(bytes, i * n, n)
    decreases count
  {
    hide LittleEndian;
    if count > 0 {
      Distribute(count - 1, 1, n);
      var shorter := bytes[..|bytes| - n];
      NumbersExact(shorter, n, count - 1);
      forall i | 0 <= i < count
        ensures 0 <= i * n && i * n + n <= |bytes| && Numbers(bytes, n)[i] == LittleEndian(bytes, i * n, n)
      {
        if i < count - 1 {
          assert bytes[i * n..i * n + n] == shorter[i * n..i * n + n];
          LittleSame(bytes, i * n, shorter, i * n, n);
        }
      }
    } else {
      assert bytes == [];
    }
  }

  lemma {:induction false} NumbersAppend(a: seq<byte>, b: seq<byte>, n: nat, count: nat)
    requires n > 0 && |b| == count * n
    ensures Numbers(a + b, n) == Numbers(a, n) + Numbers(b, n)
    decreases count
  {
    if count > 0 {
      Distribute(count - 1, 1, n);
      var shorter := b[..|b| - n];
      assert (a + b)[..|a + b| - n] == a + shorter;
      assert (a + b)[|a + b| - n..|a + b|] == b[|b| - n..|b|];
      LittleSame(a + b, |a + b| - n, b, |b| - n, n);
      NumbersAppend(a, shorter, n, count - 1);
    } else {
      assert b == [] && a + b == a;
    }
  }

  /** Read from memory, number by number. */
  lemma NumberAt(mem: seq<byte>, p: nat, bytes: seq<byte>, n: nat, count: nat, i: nat)
    requires n > 0 && |bytes| == count * n && p + |bytes| <= |mem| && mem[p..p + |bytes|] == bytes && i < count
    ensures |Numbers(bytes, n)| == count && 0 <= i * n && p + i * n + n <= |mem|
    ensures LittleEndian(mem, p + i * n, n) == Numbers(bytes, n)[i]
  {
    hide LittleEndian, Numbers;
    NumbersExact(bytes, n, count);
    var j := i * n;
    assert 0 <= j && j + n <= |bytes|;
    SameWithin(mem, p, bytes, j, n);
    LittleSame(mem, p + j, bytes, j, n);
  }

  lemma SameWithin(mem: seq<byte>, p: nat, bytes: seq<byte>, j: nat, n: nat)
    requires p + |bytes| <= |mem| && mem[p..p + |bytes|] == bytes && j + n <= |bytes|
    ensures mem[p + j..p + j + n] == bytes[j..j + n]
  {
    forall k | j <= k < j + n
      ensures mem[p + k] == bytes[k]
    {
      assert mem[p..p + |bytes|][k] == mem[p + k];
    }
  }
}
