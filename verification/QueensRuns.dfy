/** Counting all solutions: the work is split by the column of the first queen, only the left half
    is searched, and each half counts twice. */
module QueensRuns {
  import opened Queens
  import opened Words
  import opened QueensMasks
  import Arrays = QueensArrays

  const INT64_MAX: nat := 0x7fff_ffff_ffff_ffff

  /** The number of solutions that begin with column i, as the searches count them: a single queen
      leaves no row to search. */
  ghost function Sub(n: nat, i: nat): (c: nat) { Added(n, [i]) }

  lemma FirstMasks(i: nat)
    requires i < MAX_QUEENS
    ensures Masks([i], Single(i), Right(Single(i)), Left(Single(i)))
  {
    hide Single, Right, Left, Has;
    forall j: nat | j < 32
      ensures MasksAt([i], Single(i), Right(Single(i)), Left(Single(i)), j)
    {
      HasSingle(i, j);
      HasRight(Single(i), j);
      HasLeft(Single(i), j);
      if j < 31 {
        HasSingle(i, j + 1);
      }
      if j > 0 {
        HasSingle(i, j - 1);
      }
      assert [i][0] == i;
    }
  }

  /** backtrackingsub on bit masks */
  method BacktrackingSub(n: nat, i: nat) returns (c: int)
    requires 0 < n <= MAX_QUEENS && i < n
    ensures c == Sub(n, i)
  {
    var bt := new BackTracking(n);
    var m := Single(i);
    FirstMasks(i);
    hide Masks, Added, Single, Right, Left;
    bt.Search(1, m, Right(m), Left(m), [i]);
    c := bt.count;
  }

  /** backtrackingsub on boolean arrays: the same number. */
  method BacktrackingSubArrays(n: nat, i: nat) returns (c: int)
    requires 0 < n <= MAX_QUEENS && i < n
    ensures c == Sub(n, i)
  {
    var bt := new Arrays.BackTracking(n);
    Arrays.FlagsStep(n, [], i, bt.columns[..], bt.diagonal[..], bt.antidiagonal[..]);
    assert [] + [i] == [i];
    hide Added;
    bt.Put(0, i, true);
    bt.Search(1, [i]);
    c := bt.count;
  }

  /** backtracking: right for every number of queens but one. */
  method Backtracking(n: nat) returns (total: int)
    requires 0 < n <= MAX_QUEENS
    ensures total == Total(n, Threads(n))
    ensures total == |Solutions(n)| <==> n != 1
  {
    total := 0;
    for i := 0 to n / 2
      invariant n > 1 ==> total == Between(n, 0, i)
      invariant n == 1 ==> total == 0
      invariant 2 * total <= INT64_MAX
    {
      var c := BacktrackingSub(n, i);
      BetweenLast(n, 0, i);
      HalfFits(n, i + 1);
      hide Completions;
      total := total + c;
    }
    total := total * 2;
    if n % 2 == 1 {
      var c := BacktrackingSub(n, n / 2);
      total := total + c;
    }
    DoubledHalf(n);
    OneQueen();
    WeightedTotal(n);
  }

  // ----- the numbers fit in 64 bits -----

  lemma {:induction false} FactorialGrows(k: nat, m: nat)
    requires k <= m
    ensures Factorial(k) <= Factorial(m)
  {
    if k < m {
      FactorialGrows(k, m - 1);
    }
  }

  lemma SolutionsFit(n: nat)
    requires n <= MAX_QUEENS
    ensures |Solutions(n)| <= INT64_MAX
  {
    CountBound(n, []);
    FactorialGrows(n, MAX_QUEENS);
    assert Factorial(5) == 120;
    assert Factorial(10) == 3628800;
    assert Factorial(15) == 1307674368000;
    assert Factorial(20) == 2432902008176640000;
  }

  lemma {:induction false} BetweenGrows(n: nat, a: nat, b: nat, c: nat)
    requires a <= b <= c
    ensures Between(n, a, b) <= Between(n, a, c)
  {
    BetweenSplit(n, a, b, c);
  }

  lemma HalfFits(n: nat, i: nat)
    requires 0 < n <= MAX_QUEENS && i <= n / 2
    ensures 2 * Between(n, 0, i) <= INT64_MAX
  {
    BetweenGrows(n, 0, i, n / 2);
    DoubledHalf(n);
    SolutionsFit(n);
  }

  /** The exception: one queen has one solution, but its column is never searched. */
  lemma OneQueen()
    ensures |Solutions(1)| == 1 && Sub(1, 0) == 0
  {
    OneWhenFull(1, [0]);
    DoubledHalf(1);
    assert Between(1, 0, 0) == 0;
  }

  // ----- threads -----

  /** What the thread for column i adds. */
  ghost function Weight(n: nat, i: nat): (w: nat) {
    if n % 2 == 1 && i == n / 2 then Sub(n, i) else 2 * Sub(n, i)
  }

  /** The sum of what the threads add, in the given order. */
  ghost function Total(n: nat, order: seq<nat>): (t: nat) {
    if order == [] then 0 else Total(n, order[..|order| - 1]) + Weight(n, order[|order| - 1])
  }

  /** One thread for every column of the left half and the middle. */
  ghost function Threads(n: nat): (s: seq<nat>) { seq((n + 1) / 2, i => i) }

  lemma {:induction false} TotalAppend(n: nat, a: seq<nat>, b: seq<nat>)
    ensures Total(n, a + b) == Total(n, a) + Total(n, b)
  {
    if b == [] {
      assert a + b == a;
    } else {
      var m := |b| - 1;
      assert (a + b)[..|a + b| - 1] == a + b[..m];
      TotalAppend(n, a, b[..m]);
    }
  }

  lemma RemoveOne(s: seq<nat>, k: nat)
    requires k < |s|
    ensures multiset(s) == multiset(s[..k] + s[k + 1..]) + multiset{s[k]}
  {
    assert s == s[..k] + ([s[k]] + s[k + 1..]);
  }

  lemma TotalRemoveOne(n: nat, s: seq<nat>, k: nat)
    requires k < |s|
    ensures Total(n, s) == Total(n, s[..k] + s[k + 1..]) + Weight(n, s[k])
  {
    assert s == s[..k] + ([s[k]] + s[k + 1..]);
    assert [s[k]][..0] == [];
    assert Total(n, [s[k]]) == Weight(n, s[k]);
    hide Total, Weight;
    TotalAppend(n, s[..k], s[k + 1..]);
    TotalAppend(n, s[..k], [s[k]] + s[k + 1..]);
    TotalAppend(n, [s[k]], s[k + 1..]);
  }

  /** The order in which the threads finish does not matter. */
  lemma {:induction false} AnyOrder(n: nat, a: seq<nat>, b: seq<nat>)
    requires multiset(a) == multiset(b)
    ensures Total(n, a) == Total(n, b)
  {
    if a == [] {
      assert |b| == |multiset(b)| == 0;
    } else {
      var m := |a| - 1;
      var x := a[m];
      assert a == a[..m] + [x];
      assert x in multiset(b);
      var k :| 0 <= k < |b| && b[k] == x;
      RemoveOne(b, k);
      var A, B := multiset(a[..m]), multiset(b[..k] + b[k + 1..]);
      assert A + multiset{x} == B + multiset{x};
      assert A == (A + multiset{x}) - multiset{x};
      assert B == (B + multiset{x}) - multiset{x};
      AnyOrder(n, a[..m], b[..k] + b[k + 1..]);
      TotalRemoveOne(n, b, k);
    }
  }

  lemma {:induction false} TotalPrefix(n: nat, k: nat)
    requires 1 < n && k <= n / 2
    ensures Total(n, seq(k, i => i)) == 2 * Between(n, 0, k)
  {
    if k != 0 {
      TotalPrefix(n, k - 1);
      BetweenLast(n, 0, k - 1);
      assert seq(k, i => i)[..k - 1] == seq(k - 1, i => i);
    }
  }

  /** The threads' contributions add up to all solutions, except for one queen. */
  lemma WeightedTotal(n: nat)
    requires 0 < n
    ensures Total(n, Threads(n)) == if n == 1 then 0 else |Solutions(n)|
  {
    if n == 1 {
      assert Threads(1) == [0];
      assert [0][..0] == [];
    } else {
      TotalPrefix(n, n / 2);
      DoubledHalf(n);
      if n % 2 == 1 {
        assert Threads(n)[..n / 2] == seq(n / 2, i => i);
      }
    }
  }

  /** backtracking_mt, the atomic additions taking place in any order. */
  method BacktrackingThreads(n: nat, order: seq<nat>) returns (total: int)
    requires 0 < n <= MAX_QUEENS && multiset(order) == multiset(Threads(n))
    ensures total == |Solutions(n)| <==> n != 1
    ensures 0 <= total <= INT64_MAX
  {
    AnyOrder(n, order, Threads(n));
    WeightedTotal(n);
    OneQueen();
    hide Total, Solutions;
    PrefixFits(n, order, 0);
    total := 0;
    for k := 0 to |order|
      invariant total == Total(n, order[..k]) && 0 <= total <= INT64_MAX
    {
      var i := order[k];
      InThreads(n, order, k);
      var c := BacktrackingSub(n, i);
      NextThread(n, order, k);
      PrefixFits(n, order, k + 1);
      total := total + (if n % 2 == 1 && i == n / 2 then c else 2 * c);
    }
    assert order[..|order|] == order;
  }

  lemma InThreads(n: nat, order: seq<nat>, k: nat)
    requires 0 < n && multiset(order) == multiset(Threads(n)) && k < |order|
    ensures order[k] < n
  {
    assert order[k] in multiset(order);
    assert order[k] in multiset(Threads(n));
  }

  /** No partial sum overflows. */
  lemma PrefixFits(n: nat, order: seq<nat>, k: nat)
    requires 0 < n <= MAX_QUEENS && multiset(order) == multiset(Threads(n)) && k <= |order|
    ensures Total(n, order[..k]) <= INT64_MAX
  {
    hide Total;
    assert order == order[..k] + order[k..];
    TotalAppend(n, order[..k], order[k..]);
    AnyOrder(n, order, Threads(n));
    WeightedTotal(n);
    SolutionsFit(n);
  }

  lemma NextThread(n: nat, order: seq<nat>, k: nat)
    requires k < |order|
    ensures Total(n, order[..k + 1]) == Total(n, order[..k]) + Weight(n, order[k])
  {
    assert order[..k + 1][..k] == order[..k];
  }
}
