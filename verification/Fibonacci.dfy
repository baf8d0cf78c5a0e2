/** Four ways to the N-th Fibonacci number. */
module Fibonacci {
  import opened Numbers
  import opened Limbs
  import opened Numerals
  import opened BigInt

  function Fib(n: nat): (f: nat) {
    if n == 0 then 0 else if n == 1 then 1 else Fib(n - 1) + Fib(n - 2)
  }

  lemma {:induction false} FibAdd(m: nat, n: nat)
    requires m >= 1
    ensures Fib(m + n) == Fib(m) * Fib(n + 1) + Fib(m - 1) * Fib(n)
    decreases m
  {
    if m == 1 {
    } else if m == 2 {
      assert Fib(2) == 1 && Fib(n + 2) == Fib(n + 1) + Fib(n);
    } else {
      FibAdd(m - 1, n);
      FibAdd(m - 2, n);
      assert Fib(m + n) == Fib(m - 1 + n) + Fib(m - 2 + n);
      assert Fib(m) == Fib(m - 1) + Fib(m - 2) && Fib(m - 1) == Fib(m - 2) + Fib(m - 3);
      hide Fib;
      AddRows(Fib(m - 1), Fib(m - 2), Fib(m - 3), Fib(n + 1), Fib(n));
    }
  }

  lemma AddRows(a: int, b: int, c: int, x: int, y: int)
    ensures (a * x + b * y) + (b * x + c * y) == (a + b) * x + (b + c) * y
  {
    Distribute(x, a, b);
    Distribute(y, b, c);
  }

  /** The matrix power [F(k+1) F(k); F(k) F(k-1)], by its three different entries. */
  ghost predicate Triple(a0: int, a1: int, a2: int, k: nat) {
    k >= 1 && a0 == Fib(k - 1) && a1 == Fib(k) && a2 == Fib(k + 1)
  }

  /** Squaring the matrix doubles the index. */
  lemma Squared(a0: int, a1: int, a2: int, k: nat)
    requires Triple(a0, a1, a2, k)
    ensures Triple(a0 * a0 + a1 * a1, (a2 + a0) * a1, a2 * a2 + a1 * a1, 2 * k)
  {
    hide Fib;
    FibAdd(k, k);
    FibAdd(k + 1, k);
    FibAdd(k, k - 1);
    assert 2 * k + 1 == (k + 1) + k && 2 * k - 1 == k + (k - 1);
    Distribute(a1, a2, a0);
  }

  /** Multiplying two powers adds the indices. */
  lemma Multiplied(a0: int, a1: int, a2: int, k: nat, b0: int, b1: int, b2: int, l: nat)
    requires Triple(a0, a1, a2, k) && Triple(b0, b1, b2, l)
    ensures Triple(a0 * b0 + a1 * b1, a2 * b1 + a1 * b0, a2 * b2 + a1 * b1, k + l)
  {
    hide Fib;
    FibAdd(l, k);
    FibAdd(l + 1, k);
    FibAdd(l, k - 1);
    assert k + l + 1 == (l + 1) + k && k + l - 1 == l + (k - 1);
  }

  ghost predicate Are(n0: UnsignedInt, n1: UnsignedInt, n2: UnsignedInt, k: nat)
    reads n0, n1, n2
  {
    && n0 != n1 && n0 != n2 && n1 != n2
    && Normal(n0.limbs) && Normal(n1.limbs) && Normal(n2.limbs)
    && Triple(Value(n0.limbs), Value(n1.limbs), Value(n2.limbs), k)
  }

  /** A := A * A, with a temporary. */
  method Square(n0: UnsignedInt, n1: UnsignedInt, n2: UnsignedInt, t: UnsignedInt, ghost k: nat)
    requires Are(n0, n1, n2, k) && t != n0 && t != n1 && t != n2
    modifies n0, n1, n2, t
    ensures Are(n0, n1, n2, 2 * k)
  {
    hide Value, Normal, Fib;
    ghost var a0, a1, a2 := Value(n0.limbs), Value(n1.limbs), Value(n2.limbs);
    t.limbs := n2.limbs;
    t.Add(n0);
    t.Multiply(n1);
    n0.Multiply(n0);
    n1.Multiply(n1);
    n2.Multiply(n2);
    n2.Add(n1);
    n0.Add(n1);
    n1.Swap(t);
    Squared(a0, a1, a2, k);
  }

  /** N := A * N, with two temporaries. */
  method MultiplyInto(n0: UnsignedInt, n1: UnsignedInt, n2: UnsignedInt, t0: UnsignedInt, t1: UnsignedInt, t2: UnsignedInt,
                      s1: UnsignedInt, s2: UnsignedInt, ghost e: nat, ghost m: nat)
    requires Are(n0, n1, n2, e) && Are(t0, t1, t2, m)
    requires {n0, n1, n2} !! {t0, t1, t2} && {s1, s2} !! {n0, n1, n2, t0, t1, t2} && s1 != s2
    modifies n0, n1, n2, s1, s2
    ensures Are(n0, n1, n2, e + m)
  {
    hide Value, Normal, Fib;
    ghost var a0, a1, a2 := Value(n0.limbs), Value(n1.limbs), Value(n2.limbs);
    ghost var b0, b1, b2 := Value(t0.limbs), Value(t1.limbs), Value(t2.limbs);
    s1.limbs := n1.limbs;
    s1.Multiply(t0);
    s2.limbs := n2.limbs;
    s2.Multiply(t1);
    s2.Add(s1);
    n1.Multiply(t1);
    n2.Multiply(t2);
    n2.Add(n1);
    n0.Multiply(t0);
    n0.Add(n1);
    n1.Swap(s2);
    Multiplied(a0, a1, a2, e, b0, b1, b2, m);
  }

  lemma FirstTriple()
    ensures Triple(0, 1, 1, 1) && Fib(0) == 0 && Fib(1) == 1 && Fib(2) == 1
  {
    assert Fib(2) == 1;
  }

  /** Binary exponentiation from the low bit. */
  method FastFibonacci(N: nat) returns (s: string)
    ensures s == Numeral(10, Fib(N))
  {
    FirstTriple();
    hide Fib, Value, Normal, Triple;
    var n0, n1, n2 := UnitTriple();
    var result := n1;
    ghost var e := 1;
    if N == 0 {
      result := n0;
    } else if N >= 3 {
      if N % 2 == 0 {
        result := n0;
      }
      e := FastLoop(N, n0, n1, n2);
    }
    Entries(n0, n1, n2, e);
    s := result.ToDec();
  }

  lemma Entries(n0: UnsignedInt, n1: UnsignedInt, n2: UnsignedInt, k: nat)
    requires Are(n0, n1, n2, k)
    ensures k >= 1 && Value(n0.limbs) == Fib(k - 1) && Value(n1.limbs) == Fib(k)
  {
  }

  method UnitTriple() returns (t0: UnsignedInt, t1: UnsignedInt, t2: UnsignedInt)
    ensures fresh(t0) && fresh(t1) && fresh(t2) && Are(t0, t1, t2, 1)
  {
    FirstTriple();
    hide Triple, Value, Normal;
    t0 := new UnsignedInt(0);
    t1 := new UnsignedInt(1);
    t2 := new UnsignedInt(1);
  }

  /** The loop over the bits of N above the lowest. */
  method FastLoop(N: nat, n0: UnsignedInt, n1: UnsignedInt, n2: UnsignedInt) returns (ghost e: nat)
    requires Are(n0, n1, n2, 1)
    modifies n0, n1, n2
    ensures Are(n0, n1, n2, e) && e == N - N % 2 + 1
  {
    var t0, t1, t2 := UnitTriple();
    hide Are;
    var t3 := new UnsignedInt(0);
    var s1 := new UnsignedInt(0);
    var s2 := new UnsignedInt(0);
    e := 1;
    ghost var m: nat := 1;
    var k: nat := N / 2;
    while k != 0
      invariant Are(n0, n1, n2, e) && Are(t0, t1, t2, m)
      invariant fresh(t0) && fresh(t1) && fresh(t2) && fresh(t3) && fresh(s1) && fresh(s2)
      invariant N - N % 2 == e - 1 + 2 * (m * k)
      decreases k
    {
      LowBit(m, k);
      Square(t0, t1, t2, t3, m);
      m := 2 * m;
      if k % 2 == 1 {
        MultiplyInto(n0, n1, n2, t0, t1, t2, s1, s2, e, m);
        e := e + m;
      }
      k := k / 2;
    }
  }

  lemma LowBit(m: nat, k: nat)
    ensures 2 * (m * k) == (if k % 2 == 1 then 2 * m else 0) + 2 * (2 * m * (k / 2))
  {
    assert k == 2 * (k / 2) + k % 2;
    Distribute(m, 2 * (k / 2), k % 2);
    MulAssoc(2, m, k / 2);
  }

  /** The search for the top bit doubles a 32-bit int; it stays in range exactly below 2^30. */
  lemma TopBitFits(N: nat)
    requires 1 <= N < 0x8000_0000
    ensures (exists j: nat :: N < Pow(2, j) < 0x8000_0000) <==> N < 0x4000_0000
  {
    BigPowers();
    if N < 0x4000_0000 {
      assert N < Pow(2, 30) < 0x8000_0000;
    }
    if exists j: nat :: N < Pow(2, j) < 0x8000_0000 {
      var j: nat :| N < Pow(2, j) < 0x8000_0000;
      if j >= 31 {
        PowMono(2, 31, j);
      } else {
        PowMono(2, j, 30);
      }
    }
  }

  lemma BigPowers()
    ensures Pow(2, 30) == 0x4000_0000 && Pow(2, 31) == 0x8000_0000
  {
    PowAdd(2, 15, 15);
    PowAdd(2, 7, 8);
    assert Pow(2, 7) == 128 && Pow(2, 8) == 256;
    assert Pow(2, 31) == 2 * Pow(2, 30);
  }

  /** Binary exponentiation from the high bit.  From 2^30 on the source overflows its int. */
  method FasterFibonacci(N: int) returns (s: string)
    requires N < 0x4000_0000
    ensures s == Numeral(10, if N < 0 then 1 else Fib(N))
  {
    FirstTriple();
    hide Fib, Value, Normal, Triple;
    var n0, n1, n2 := UnitTriple();
    var result := n1;
    ghost var e := 1;
    if N == 0 {
      result := n0;
    } else if N >= 3 {
      var t := new UnsignedInt(0);
      FasterLoop(N, n0, n1, n2, t);
      e := N;
    }
    Entries(n0, n1, n2, e);
    s := result.ToDec();
  }

  /** The test bit & N, for a power of two. */
  predicate BitSet(bit: int, N: nat) { bit > 0 && N / bit % 2 == 1 }

  /** k is N without its low j bits. */
  ghost predicate Leading(N: nat, j: nat, k: int) { Pow(2, j) > 0 && k == N / Pow(2, j) }

  /** The loop over the bits of N below the highest. */
  method FasterLoop(N: nat, n0: UnsignedInt, n1: UnsignedInt, n2: UnsignedInt, t: UnsignedInt)
    requires 1 <= N < 0x4000_0000 && Are(n0, n1, n2, 1) && t != n0 && t != n1 && t != n2
    modifies n0, n1, n2, t
    ensures Are(n0, n1, n2, N)
  {
    hide Are, Pow, Leading, BitSet;
    var bit, j := TopBit(N);
    ghost var k: nat := 1;
    FirstBit(N, j);
    bit := bit / 2;
    while bit > 0
      invariant bit == (if j == 0 then 0 else Pow(2, j - 1)) && (j > 0 ==> bit > 0)
      invariant Are(n0, n1, n2, k) && Leading(N, j, k)
      decreases j
    {
      NextBit(N, j, k);
      Square(n0, n1, n2, t, k);
      k := 2 * k;
      if BitSet(bit, N) {
        Increment(n0, n1, n2, k);
        k := k + 1;
      }
      bit := bit / 2;
      j := j - 1;
    }
    LastBit(N, k);
  }

  /** The highest bit of N; no doubling leaves the range of int. */
  method TopBit(N: int) returns (bit: int, j: nat)
    requires 1 <= N < 0x4000_0000
    ensures bit == Pow(2, j) && bit <= N < 2 * bit
  {
    bit, j := 1, 0;
    while bit <= N
      invariant bit == Pow(2, j) && bit <= 2 * N && (j > 0 ==> Pow(2, j - 1) <= N)
      invariant 0 < bit < 0x8000_0000
      decreases 2 * N - bit
    {
      bit := bit * 2;
      j := j + 1;
    }
    bit := bit / 2;
    j := j - 1;
  }

  lemma FirstBit(N: nat, j: nat)
    requires Pow(2, j) <= N < 2 * Pow(2, j)
    ensures Leading(N, j, 1) && Pow(2, j) / 2 == if j == 0 then 0 else Pow(2, j - 1)
    ensures j > 0 ==> Pow(2, j - 1) > 0
  {
    PowPos(2, j);
    DivUnique(N, Pow(2, j), 1, N - Pow(2, j));
  }

  lemma NextBit(N: nat, j: nat, k: int)
    requires Leading(N, j, k) && j > 0
    ensures Leading(N, j - 1, 2 * k + (if BitSet(Pow(2, j - 1), N) then 1 else 0))
    ensures Pow(2, j - 1) / 2 == if j == 1 then 0 else Pow(2, j - 2)
    ensures j > 1 ==> Pow(2, j - 2) > 0
  {
    var p := Pow(2, j - 1);
    PowPos(2, j - 1);
    HalfQuotient(N, p, N / p);
  }

  lemma LastBit(N: nat, k: int)
    requires Leading(N, 0, k)
    ensures k == N
  {
  }

  /** A := [1 1; 1 0] * A */
  method Increment(n0: UnsignedInt, n1: UnsignedInt, n2: UnsignedInt, ghost k: nat)
    requires Are(n0, n1, n2, k)
    modifies n0, n1, n2
    ensures Are(n0, n1, n2, k + 1)
  {
    assert Fib(k + 2) == Fib(k + 1) + Fib(k);
    hide Value, Normal, Fib;
    n0.Swap(n1);
    n1.limbs := n2.limbs;
    n2.Add(n0);
  }

  // ----- memoised doubling -----

  /** f(2n) = f(n) * (f(n-1) + f(n+1)) and f(2n+1) = f(n)^2 + f(n+1)^2 */
  lemma Doubling(N: nat)
    requires N >= 3
    ensures N % 2 == 1 ==> Fib(N) == Fib(N / 2) * Fib(N / 2) + Fib(N / 2 + 1) * Fib(N / 2 + 1)
    ensures N % 2 == 0 ==> Fib(N) == (Fib(N / 2 - 1) + Fib(N / 2 + 1)) * Fib(N / 2)
  {
    hide Fib;
    var h := N / 2;
    if N % 2 == 1 {
      FibAdd(h + 1, h);
    } else {
      FibAdd(h, h);
      Distribute(Fib(h), Fib(h - 1), Fib(h + 1));
    }
  }

  class Memo {
    var cache: map<nat, seq<u32>>

    /** Every cached entry is a Fibonacci number in normal form. */
    ghost predicate Valid()
      reads this
    {
      && 0 in cache && 1 in cache && 2 in cache
      && forall k | k in cache :: Value(cache[k]) == Fib(k) && Normal(cache[k])
    }

    constructor (N: nat)
      ensures Valid() && N in cache
    {
      cache := map[0 := [], 1 := [1], 2 := [1]];
      new;
      assert Fib(2) == 1;
      Calc(N);
    }

    method Store(N: nat, z: seq<u32>)
      requires Valid() && Value(z) == Fib(N) && Normal(z)
      modifies this
      ensures Valid() && cache == old(cache)[N := z]
    {
      hide Fib, Value, Normal;
      cache := cache[N := z];
    }

    method Calc(N: nat)
      requires Valid()
      modifies this
      ensures Valid() && N in cache && old(cache.Keys) <= cache.Keys
      decreases N
    {
      if N !in cache {
        hide Fib, Value, Normal;
        Calc(N / 2);
        Calc(N / 2 + 1);
        if N % 2 == 1 {
          var z := SumOfSquares(cache[N / 2], cache[N / 2 + 1], N);
          Store(N, z);
        } else {
          Calc(N / 2 - 1);
          var z := SumTimes(cache[N / 2 - 1], cache[N / 2 + 1], cache[N / 2], N);
          Store(N, z);
        }
      }
    }
  }

  /** The odd case of calc, on copies of the cached numbers. */
  method SumOfSquares(x: seq<u32>, y: seq<u32>, ghost N: nat) returns (z: seq<u32>)
    requires Normal(x) && Normal(y) && N >= 3 && N % 2 == 1
    requires Value(x) == Fib(N / 2) && Value(y) == Fib(N / 2 + 1)
    ensures Normal(z) && Value(z) == Fib(N)
  {
    hide Value, Normal, Fib;
    Doubling(N);
    var a := new UnsignedInt(0);
    a.limbs := x;
    a.Multiply(a);
    var b := new UnsignedInt(0);
    b.limbs := y;
    b.Multiply(b);
    a.Add(b);
    z := a.limbs;
  }

  /** The even case of calc. */
  method SumTimes(x: seq<u32>, y: seq<u32>, w: seq<u32>, ghost N: nat) returns (z: seq<u32>)
    requires Normal(x) && Normal(y) && Normal(w) && N >= 3 && N % 2 == 0
    requires Value(x) == Fib(N / 2 - 1) && Value(y) == Fib(N / 2 + 1) && Value(w) == Fib(N / 2)
    ensures Normal(z) && Value(z) == Fib(N)
  {
    hide Value, Normal, Fib;
    Doubling(N);
    var a := new UnsignedInt(0);
    a.limbs := x;
    var b := new UnsignedInt(0);
    b.limbs := y;
    a.Add(b);
    b.limbs := w;
    a.Multiply(b);
    z := a.limbs;
  }

  method FastestFibonacci(N: nat) returns (s: string)
    ensures s == Numeral(10, Fib(N))
  {
    var f := new Memo(N);
    var u := new UnsignedInt(0);
    u.limbs := f.cache[N];
    s := u.ToDec();
  }

  // ----- one by one -----

  class FibonacciIterator {
    const fn: UnsignedInt
    const prev: UnsignedInt
    ghost var k: nat

    ghost predicate Valid()
      reads this, fn, prev
    {
      && fn != prev && k >= 1 && Normal(fn.limbs) && Normal(prev.limbs)
      && Value(fn.limbs) == Fib(k) && Value(prev.limbs) == Fib(k - 1)
    }

    constructor ()
      ensures Valid() && k == 1 && fresh(fn) && fresh(prev)
    {
      fn := new UnsignedInt(1);
      prev := new UnsignedInt(0);
      k := 1;
    }

    method Next()
      requires Valid()
      modifies this, fn, prev
      ensures Valid() && k == old(k) + 1
    {
      assert Fib(k + 1) == Fib(k) + Fib(k - 1);
      hide Fib, Value, Normal;
      prev.Swap(fn);
      fn.Add(prev);
      k := k + 1;
    }
  }

  method LinearFibonacci(N: nat) returns (s: string)
    ensures s == Numeral(10, Fib(N))
  {
    var iter := new FibonacciIterator();
    var i := 1;
    while i < N
      invariant 1 <= i && (N >= 1 ==> i <= N)
      invariant iter.Valid() && iter.k == i && fresh(iter) && fresh(iter.fn) && fresh(iter.prev)
    {
      iter.Next();
      i := i + 1;
    }
    if N == 0 {
      s := "0";
    } else {
      s := iter.fn.ToDec();
    }
  }
}
