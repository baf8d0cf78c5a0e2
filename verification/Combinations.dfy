/** Exact binomial coefficients by one running product that is divided at every step. */
module Combinations {
  import opened Limbs
  import opened BigInt
  import opened Numbers

  /** Pascal's triangle. */
  function Choose(n: nat, k: nat): (c: nat) {
    if k == 0 then 1 else if n == 0 then 0 else Choose(n - 1, k - 1) + Choose(n - 1, k)
  }

  lemma {:induction false} ChooseAbove(n: nat, k: nat)
    requires k > n
    ensures Choose(n, k) == 0
  {
    if n != 0 {
      ChooseAbove(n - 1, k - 1);
      ChooseAbove(n - 1, k);
    }
  }

  lemma {:induction false} ChooseAll(n: nat)
    ensures Choose(n, n) == 1
  {
    if n != 0 {
      ChooseAll(n - 1);
      ChooseAbove(n - 1, n);
    }
  }

  lemma {:induction false} Symmetric(n: nat, k: nat)
    requires k <= n
    ensures Choose(n, k) == Choose(n, n - k)
  {
    if k == 0 || k == n {
      ChooseAll(n);
    } else {
      Symmetric(n - 1, k - 1);
      Symmetric(n - 1, k);
    }
  }

  /** Each coefficient is the one before it, times n - k + 1 and divided by k, without remainder. */
  lemma {:induction false} NextCoefficient(n: nat, k: nat)
    requires 1 <= k <= n + 1
    ensures Choose(n, k - 1) * (n - k + 1) == Choose(n, k) * k
  {
    if n == 0 {
    } else if k == n + 1 {
      ChooseAbove(n, k);
    } else {
      var a, b := Choose(n - 1, k - 1), Choose(n - 1, k);
      NextCoefficient(n - 1, k);
      assert Choose(n, k) == a + b;
      if k == 1 {
        assert Choose(n, 0) == 1 && a == 1 && b == n - 1;
      } else {
        var c := Choose(n - 1, k - 2);
        NextCoefficient(n - 1, k - 1);
        assert Choose(n, k - 1) == c + a;
        hide Choose;
        Pascal(a, b, c, n, k);
      }
    }
  }

  lemma Pascal(a: int, b: int, c: int, n: int, k: int)
    requires a * (n - k) == b * k && c * (n - k + 1) == a * (k - 1)
    ensures (c + a) * (n - k + 1) == (a + b) * k
  {
    var x := n - k;
    assert (c + a) * (x + 1) == c * (x + 1) + (a * x + a) by {
      Distribute(x + 1, c, a);
      Distribute(a, x, 1);
    }
    assert (a + b) * k == a * (k - 1) + a + b * k by {
      Distribute(k, a, b);
      Distribute(a, k - 1, 1);
    }
  }

  /** combination: the abort on a remainder is never reached. */
  method Combination(N: nat, M: nat) returns (result: UnsignedInt)
    requires M <= N < 0x8000_0000
    ensures fresh(result) && Value(result.limbs) == Choose(N, M) && Normal(result.limbs)
  {
    var m := M;
    if m > N / 2 {
      m := N - m;
      Symmetric(N, M);
    }
    result := new UnsignedInt(1);
    for i := 1 to m + 1
      invariant fresh(result) && Value(result.limbs) == Choose(N, i - 1) && Normal(result.limbs)
    {
      hide Choose, Value, Normal;
      NextCoefficient(N, i);
      result.MultiplySmall(N - i + 1);
      ghost var p := Value(result.limbs);
      var r := result.Divide(i);
      DivUnique(p, i, Value(result.limbs), r);
      DivUnique(p, i, Choose(N, i), 0);
      assert r == 0;
    }
  }
}
