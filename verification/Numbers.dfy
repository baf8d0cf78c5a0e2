/** Powers and the few facts about products that the arithmetic modules share. */
module Numbers {

  function Pow(b: nat, n: nat): (r: nat) {
    if n == 0 then 1 else b * Pow(b, n - 1)
  }

  lemma Distribute(p: int, x: int, y: int)
    ensures p * (x + y) == p * x + p * y
  {
  }

  lemma MulMono(p: nat, x: int, y: int)
    requires x <= y
    ensures p * x <= p * y
  {
  }

  lemma {:induction false} PowPos(b: nat, n: nat)
    requires b > 0
    ensures Pow(b, n) > 0
  {
    if n != 0 {
      PowPos(b, n - 1);
    }
  }

  lemma {:induction false} PowAdd(b: nat, m: nat, n: nat)
    ensures Pow(b, m + n) == Pow(b, m) * Pow(b, n)
  {
    if m != 0 {
      PowAdd(b, m - 1, n);
      assert Pow(b, m + n) == b * Pow(b, m - 1 + n);
      MulAssoc(b, Pow(b, m - 1), Pow(b, n));
    }
  }

  lemma MulAssoc(x: int, y: int, z: int)
    ensures x * y * z == x * (y * z)
  {
  }

  lemma {:induction false} PowMono(b: nat, m: nat, n: nat)
    requires b > 0 && m <= n
    ensures Pow(b, m) <= Pow(b, n)
  {
    PowAdd(b, m, n - m);
    PowPos(b, m);
    PowPos(b, n - m);
    MulMono(Pow(b, m), 1, Pow(b, n - m));
  }

  lemma {:induction false} PowMul(x: nat, y: nat, n: nat)
    ensures Pow(x * y, n) == Pow(x, n) * Pow(y, n)
  {
    if n != 0 {
      PowMul(x, y, n - 1);
      var p, q := Pow(x, n - 1), Pow(y, n - 1);
      calc {
        Pow(x * y, n);
        (x * y) * (p * q);
        { MulAssoc(x, y, p * q); MulAssoc(y, p, q); MulAssoc(p, y, q); }
        x * (p * (y * q));
        { MulAssoc(x, p, y * q); }
        (x * p) * (y * q);
      }
    }
  }

  /** Quotient and remainder are determined by their equation. */
  lemma DivUnique(n: int, d: int, q: int, r: int)
    requires d > 0 && n == q * d + r && 0 <= r < d
    ensures n / d == q && n % d == r
  {
    var q', r' := n / d, n % d;
    assert n == q' * d + r' && 0 <= r' < d;
    if q' > q {
      MulMono(d, q + 1, q');
    } else if q' < q {
      MulMono(d, q' + 1, q);
    }
  }

  /** Halving a quotient. */
  lemma HalfQuotient(N: nat, p: nat, q: nat)
    requires p > 0 && q == N / p
    ensures N / (2 * p) == q / 2
  {
    var r := N % p;
    assert N == q * p + r;
    var h, b := q / 2, q % 2;
    assert q * p == h * (2 * p) + b * p by {
      assert q == 2 * h + b;
      Distribute(p, 2 * h, b);
      MulAssoc(h, 2, p);
    }
    DivUnique(N, 2 * p, h, b * p + r);
  }
}
