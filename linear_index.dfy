/**
  Row-major linearisation of a coordinate against a buffer's memory range:
  the specification of `getLinearIndex`, its inverse, and the arithmetic of
  the host's `size_t`.
 */
module LinearIndex {

  /** 2^64: `size_t` arithmetic on the host wraps modulo this value. */
  const SizeTModulus: nat := 0x1_0000_0000_0000_0000

  /**
    The left fold `R := R * mem[i] + off[i] + id[i]` over `i` in `[0, n)`,
    starting from 0, on unbounded integers. With positive extents, index 0
    is addressed only when offset plus coordinate is the origin.
   */
  function Fold(mem: seq<nat>, off: seq<nat>, id: seq<nat>, n: nat): (r: nat)
    requires n <= |mem| && n <= |off| && n <= |id|
    ensures (forall i :: 0 <= i < n ==> mem[i] > 0) ==>
              (r == 0 <==> forall i :: 0 <= i < n ==> off[i] + id[i] == 0)
  {
    if n == 0 then 0 else Fold(mem, off, id, n - 1) * mem[n - 1] + off[n - 1] + id[n - 1]
  }

  /** The number of elements of a range: the product of its extents. */
  function Product(s: seq<nat>): nat {
    if |s| == 0 then 1 else Product(s[..|s| - 1]) * s[|s| - 1]
  }

  /** The origin coordinate `id<n>()`. */
  function Zeros(n: nat): (z: seq<nat>)
    ensures |z| == n
    ensures forall i :: 0 <= i < n ==> z[i] == 0
  {
    seq(n, _ => 0)
  }

  /** In every one of the first n dimensions, offset plus coordinate lies
      inside the memory range. */
  ghost predicate InRange(mem: seq<nat>, off: seq<nat>, id: seq<nat>, n: nat)
    requires n <= |mem| && n <= |off| && n <= |id|
  {
    forall i :: 0 <= i < n ==> off[i] + id[i] < mem[i]
  }

  /** The inverse of the fold with a zero offset: the coordinate whose
      row-major index is k. */
  function Delinearize(mem: seq<nat>, k: nat, n: nat): (id: seq<nat>)
    requires n <= |mem|
    requires forall i :: 0 <= i < n ==> mem[i] > 0
    ensures |id| == n
    ensures forall i :: 0 <= i < n ==> id[i] < mem[i]
    decreases n
  {
    if n == 0 then [] else Delinearize(mem, k / mem[n - 1], n - 1) + [k % mem[n - 1]]
  }

  /** The fold reads only the first n entries of its arguments. */
  lemma {:induction false} FoldAgree(mem: seq<nat>, off1: seq<nat>, id1: seq<nat>,
                                     off2: seq<nat>, id2: seq<nat>, n: nat)
    requires n <= |mem| && n <= |off1| && n <= |id1| && n <= |off2| && n <= |id2|
    requires forall i :: 0 <= i < n ==> off1[i] + id1[i] == off2[i] + id2[i]
    ensures Fold(mem, off1, id1, n) == Fold(mem, off2, id2, n)
  {
    if n > 0 {
      FoldAgree(mem, off1, id1, off2, id2, n - 1);
    }
  }

  /** The origin with a zero offset has linear index 0. */
  lemma {:induction false} FoldOrigin(mem: seq<nat>, off: seq<nat>, n: nat)
    requires n <= |mem| && n <= |off|
    requires forall i :: 0 <= i < n ==> off[i] == 0
    ensures Fold(mem, off, Zeros(n), n) == 0
  {
    if n > 0 {
      FoldOrigin(mem, off, n - 1);
      FoldAgree(mem, off, Zeros(n), off, Zeros(n - 1), n - 1);
    }
  }

  /** One step of the fold: a value below P, scaled by m and followed by a
      digit below m, stays below P * m. */
  lemma StepBound(a: nat, d: nat, m: nat, p: nat)
    requires a < p && d < m
    ensures a * m + d < p * m
  {
    calc {
      a * m + d;
    <  a * m + m;
    == (a + 1) * m;
    <= { MulMonotone(a + 1, p, m); }
      p * m;
    }
  }

  lemma MulMonotone(a: nat, b: nat, m: nat)
    requires a <= b
    ensures a * m <= b * m
  {
  }

  /** One step of the fold is injective: the digit below m and the value
      scaled by m are recovered from their combination. */
  lemma StepInjective(a: nat, d1: nat, b: nat, d2: nat, m: nat)
    requires d1 < m && d2 < m
    requires a * m + d1 == b * m + d2
    ensures a == b && d1 == d2
  {
    if a < b {
      StepBound(a, d1, m, b);
      assert false;
    } else if b < a {
      StepBound(b, d2, m, a);
      assert false;
    }
  }

  lemma PrefixDrop(s: seq<nat>, n: nat)
    requires 0 < n <= |s|
    ensures s[..n][..n - 1] == s[..n - 1] && s[..n][n - 1] == s[n - 1]
  {
  }

  /**
    Row-major addressing against the memory range: when offset plus
    coordinate is inside the memory range in every dimension, the linear
    index is below the number of elements of the first n dimensions.
   */
  lemma {:induction false} FoldBelowProduct(mem: seq<nat>, off: seq<nat>, id: seq<nat>, n: nat)
    requires n <= |mem| && n <= |off| && n <= |id|
    requires InRange(mem, off, id, n)
    ensures Fold(mem, off, id, n) < Product(mem[..n])
  {
    if n > 0 {
      FoldBelowProduct(mem, off, id, n - 1);
      PrefixDrop(mem, n);
      StepBound(Fold(mem, off, id, n - 1), off[n - 1] + id[n - 1], mem[n - 1], Product(mem[..n - 1]));
    }
  }

  /** Distinct in-range coordinates address distinct elements. */
  lemma {:induction false} FoldInjective(mem: seq<nat>, off: seq<nat>, id1: seq<nat>, id2: seq<nat>, n: nat)
    requires n <= |mem| && n <= |off| && n <= |id1| && n <= |id2|
    requires InRange(mem, off, id1, n) && InRange(mem, off, id2, n)
    requires Fold(mem, off, id1, n) == Fold(mem, off, id2, n)
    ensures id1[..n] == id2[..n]
  {
    if n > 0 {
      StepInjective(Fold(mem, off, id1, n - 1), off[n - 1] + id1[n - 1],
                    Fold(mem, off, id2, n - 1), off[n - 1] + id2[n - 1], mem[n - 1]);
      FoldInjective(mem, off, id1, id2, n - 1);
      assert id1[..n] == id1[..n - 1] + [id1[n - 1]];
      assert id2[..n] == id2[..n - 1] + [id2[n - 1]];
    }
  }

  /** Every index below the element count is the linear index of the
      coordinate Delinearize gives for it. */
  lemma {:induction false} FoldOfDelinearize(mem: seq<nat>, off: seq<nat>, k: nat, n: nat)
    requires n <= |mem| && n <= |off|
    requires forall i :: 0 <= i < n ==> mem[i] > 0 && off[i] == 0
    requires k < Product(mem[..n])
    ensures Fold(mem, off, Delinearize(mem, k, n), n) == k
    decreases n
  {
    if n > 0 {
      var m := mem[n - 1];
      var q := k / m;
      var id := Delinearize(mem, k, n);
      PrefixDrop(mem, n);
      QuotientBelow(k, m, Product(mem[..n - 1]));
      FoldOfDelinearize(mem, off, q, n - 1);
      FoldAgree(mem, off, id, off, Delinearize(mem, q, n - 1), n - 1);
      assert id[n - 1] == k % m;
    }
  }

  /** Division by a positive extent: the quotient of a value below p * m is
      below p, and quotient and remainder recombine to the value. */
  lemma QuotientBelow(k: nat, m: nat, p: nat)
    requires m > 0 && k < p * m
    ensures k / m < p && k == k / m * m + k % m
  {
    if k / m >= p {
      MulMonotone(p, k / m, m);
    }
  }

  /** Delinearize recovers every in-range coordinate from its linear index. */
  lemma {:induction false} DelinearizeOfFold(mem: seq<nat>, off: seq<nat>, id: seq<nat>, n: nat)
    requires n <= |mem| && n <= |off| && n <= |id|
    requires forall i :: 0 <= i < n ==> off[i] == 0
    requires InRange(mem, off, id, n)
    ensures Delinearize(mem, Fold(mem, off, id, n), n) == id[..n]
  {
    if n > 0 {
      var m := mem[n - 1];
      var x := Fold(mem, off, id, n);
      StepInjective(x / m, x % m, Fold(mem, off, id, n - 1), id[n - 1], m);
      DelinearizeOfFold(mem, off, id, n - 1);
      assert id[..n] == id[..n - 1] + [id[n - 1]];
    }
  }

  /** Reducing the accumulator modulo 2^64 before a step gives the same
      result modulo 2^64 as not reducing it. */
  lemma ModStep(a: nat, m: nat, c: nat)
    ensures (a % SizeTModulus * m + c) % SizeTModulus == (a * m + c) % SizeTModulus
  {
    var q := a / SizeTModulus;
    var x := a % SizeTModulus * m + c;
    assert a * m + c == x + (q * m) * SizeTModulus;
    AddMultiple(x, q * m);
  }

  lemma {:induction false} AddMultiple(x: nat, k: nat)
    ensures (x + k * SizeTModulus) % SizeTModulus == x % SizeTModulus
  {
    if k > 0 {
      AddMultiple(x, k - 1);
      assert x + k * SizeTModulus == (x + (k - 1) * SizeTModulus) + SizeTModulus;
    }
  }

  /** Concrete cases of the fold. */
  lemma FoldExamples()
    ensures Fold([3, 4], [1, 0], [1, 2], 2) == 10
    ensures Fold([4], [0], [2], 1) == 2
    ensures Fold([10], [3], [0], 1) == 3
    ensures Fold([10], [3], [3], 1) == 6
    ensures Fold([2, 3, 4], [0, 0, 0], [1, 2, 3], 3) == 23
  {
  }
}
