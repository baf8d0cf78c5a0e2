/** The exact decimal expansion of a binary floating-point number M * 2^E. */
module ExactFloat {
  import opened Numbers
  import opened Limbs
  import opened Numerals
  import opened BigInt

  ghost function Floor(M: nat, E: int): (n: nat) {
    if E >= 0 then M * Pow(2, E) else PowPos(2, -E); M / Pow(2, -E)
  }

  /** The numeral i "." frac denotes exactly M * 2^E. */
  ghost predicate Denotes(i: nat, frac: string, M: nat, E: int) {
    && IsNumeral(10, frac)
    && var p := Pow(10, |frac|);
    if E >= 0 then i * p + NumeralValue(10, frac) == M * Pow(2, E) * p
    else (i * p + NumeralValue(10, frac)) * Pow(2, -E) == M * p
  }

  // ----- the integer part -----

  /** Floor when E is negative: one right shift per binary place. */
  method ShiftDown(E: int, M: u64) returns (m: u64, e: int)
    ensures e == (if E < 0 then 0 else E)
    ensures Floor(M, E) == m * Pow(2, e)
  {
    e, m := E, M;
    ghost var k: nat := 0;
    while e < 0
      invariant E < 0 ==> e <= 0
      invariant E >= 0 ==> e == E
      invariant k == e - E && Shifted2(M, k, m)
      decreases -e
    {
      ShiftOnce(M, k, m);
      hide Shifted2;
      m := m / 2;
      e := e + 1;
      k := k + 1;
    }
  }

  /** m is M without its low k bits. */
  ghost predicate Shifted2(M: nat, k: nat, m: int) { Pow(2, k) > 0 && m == M / Pow(2, k) }

  lemma ShiftOnce(M: nat, k: nat, m: nat)
    requires Shifted2(M, k, m)
    ensures Shifted2(M, k + 1, m / 2)
  {
    PowPos(2, k + 1);
    HalfQuotient(M, Pow(2, k), m);
  }

  /** A 64-bit number from its two halves. */
  method FromHalves(m: u64) returns (u: UnsignedInt)
    ensures fresh(u) && Value(u.limbs) == m && Normal(u.limbs)
  {
    hide Value, Normal;
    var lo: u32 := m % BASE;
    var hi: u32 := m / BASE;
    u := new UnsignedInt(lo);
    if hi != 0 {
      var x := new UnsignedInt(hi);
      x.MultiplySmall(0x10000);
      x.MultiplySmall(0x10000);
      u.Add(x);
    }
  }

  /** integer() */
  method Integer(E: int, M: u64) returns (s: string)
    requires E < 0x8000_0000
    ensures s == Numeral(10, Floor(M, E))
  {
    hide *;
    var m, e := ShiftDown(E, M);
    var u := FromHalves(m);
    if e != 0 {
      var y := new UnsignedInt(2);
      y.Power(e);
      u.Multiply(y);
    } else {
      PowZero(2);
    }
    s := u.ToDec();
  }

  lemma PowZero(b: nat)
    ensures Pow(b, 0) == 1
  {
  }

  // ----- the fraction -----

  /** The exponent that is left when the trailing zero bits below the point are dropped. */
  ghost function Reduced(E: int, M: nat): (e: int)
    ensures E <= e && (E < 0 ==> e <= 0)
    decreases -E
  {
    if E < 0 && M % 2 == 0 then Reduced(E + 1, M / 2) else E
  }

  /** The number of digits, minus that exponent, is computed in a 32-bit int.  It fits for every
      exponent and mantissa but the least exponent with an odd mantissa. */
  lemma DigitsFit(E: int, M: nat)
    requires -0x8000_0000 <= E < 0x8000_0000
    ensures -Reduced(E, M) <= 0x7fff_ffff <==> !(E == -0x8000_0000 && M % 2 == 1)
  {
    if E < 0 && M % 2 == 0 {
      assert Reduced(E, M) >= E + 1;
    }
  }

  /** Drops the trailing zero bits below the point. */
  method DropZeros(E: int, M: u64) returns (e: int, m: u64)
    ensures e == Reduced(E, M)
    ensures E >= 0 ==> e == E && m == M
    ensures E < 0 ==> E <= e <= 0 && M == m * Pow(2, e - E) && (e < 0 ==> m % 2 == 1)
  {
    e, m := E, M;
    while e < 0 && m % 2 == 0
      invariant Reduced(E, M) == Reduced(e, m)
      invariant E >= 0 ==> e == E && m == M
      invariant E < 0 ==> E <= e <= 0 && M == m * Pow(2, e - E)
      decreases -e
    {
      ZeroBit(m, e - E);
      m := m / 2;
      e := e + 1;
    }
  }

  lemma ZeroBit(m: nat, z: nat)
    requires m % 2 == 0
    ensures m / 2 * Pow(2, z + 1) == m * Pow(2, z)
  {
    var h := m / 2;
    assert m == h * 2;
    MulAssoc(h, 2, Pow(2, z));
  }

  /** After k steps: the digits of the low k bits of m, the next place value, and the bits left. */
  ghost predicate Digits(m: nat, k: nat, f: int, d: int, rest: int) {
    && Pow(2, k) > 0
    && f == Pow(5, k) * (m % Pow(2, k))
    && d == 5 * Pow(10, k)
    && rest == m / Pow(2, k)
  }

  lemma DigitsStart(m: nat)
    ensures Digits(m, 0, 0, 5, m)
  {
  }

  lemma DigitsStep(m: nat, k: nat, f: nat, d: nat, rest: nat)
    requires Digits(m, k, f, d, rest)
    ensures Digits(m, k + 1, f * 5 + (if rest % 2 == 1 then d else 0), d * 10, rest / 2)
  {
    var p, q, t := Pow(2, k), Pow(5, k), Pow(10, k);
    PowPos(2, k + 1);
    PowMul(2, 5, k);
    assert t == p * q;
    HalfQuotient(m, p, rest);
    var r := m % p;
    var b := rest % 2;
    NextBits(m, p, rest);
    assert m % Pow(2, k + 1) == r + b * p;
    assert Pow(5, k + 1) == 5 * q && Pow(2, k + 1) == 2 * p && Pow(10, k + 1) == 10 * t;
    hide Pow;
    StepArithmetic(p, q, r, b);
  }

  lemma NextBits(m: nat, p: nat, rest: nat)
    requires p > 0 && rest == m / p
    ensures m % (2 * p) == m % p + rest % 2 * p
  {
    var r, h, b := m % p, rest / 2, rest % 2;
    assert m == rest * p + r && rest == 2 * h + b;
    assert rest * p == h * (2 * p) + b * p by {
      Distribute(p, 2 * h, b);
      MulAssoc(h, 2, p);
    }
    DivUnique(m, 2 * p, h, b * p + r);
  }

  lemma StepArithmetic(p: int, q: int, r: int, b: int)
    requires 0 <= b <= 1
    ensures 5 * q * (r + b * p) == q * r * 5 + (if b == 1 then 5 * (p * q) else 0)
  {
    Distribute(5 * q, r, b * p);
    MulAssoc(5, q, r);
    MulAssoc(5, q, p);
  }

  /** The loop over the bits below the point. */
  method FractionDigits(e0: int, m: u64) returns (x: string)
    ensures var n := if e0 < 0 then -e0 else 0;
            Pow(2, n) > 0 && x == Numeral(10, Pow(5, n) * (m % Pow(2, n)))
  {
    hide Value, Normal, Pow, Digits;
    var e, rest := e0, m;
    var f := new UnsignedInt(0);
    var d := new UnsignedInt(5);
    ghost var n: nat, k: nat := if e0 < 0 then -e0 else 0, 0;
    DigitsStart(m);
    while e < 0
      invariant e == (if n == 0 then e0 else k - n) && k <= n
      invariant fresh(f) && fresh(d) && f != d && Normal(f.limbs) && Normal(d.limbs)
      invariant Digits(m, k, Value(f.limbs), Value(d.limbs), rest)
      decreases n - k
    {
      DigitsStep(m, k, Value(f.limbs), Value(d.limbs), rest);
      f.MultiplySmall(5);
      if rest % 2 == 1 {
        f.Add(d);
      }
      rest := rest / 2;
      e := e + 1;
      d.MultiplySmall(10);
      k := k + 1;
    }
    DigitsDone(m, k, Value(f.limbs), Value(d.limbs), rest);
    x := f.ToDec();
  }

  lemma DigitsDone(m: nat, k: nat, f: int, d: int, rest: int)
    requires Digits(m, k, f, d, rest)
    ensures Pow(2, k) > 0 && f == Pow(5, k) * (m % Pow(2, k))
  {
  }

  // ----- the whole numeral -----

  function Zeros(n: nat): (s: string)
    ensures |s| == n && forall i | 0 <= i < n :: s[i] == '0'
  {
    seq(n, _ => '0')
  }

  lemma {:induction false} ZerosValue(n: nat)
    ensures IsNumeral(10, Zeros(n)) && NumeralValue(10, Zeros(n)) == 0
  {
    if n != 0 {
      ZerosValue(n - 1);
      assert Zeros(n) == Zeros(n - 1) + ['0'];
      ValueOfSnoc(10, Zeros(n - 1), '0');
    }
  }

  lemma PaddedValue(zeros: nat, f: nat)
    ensures var frac := Zeros(zeros) + Numeral(10, f);
            IsNumeral(10, frac) && NumeralValue(10, frac) == f && |frac| == zeros + |Numeral(10, f)|
  {
    ZerosValue(zeros);
    NumeralRoundTrip(10, f);
    hide NumeralValue, Numeral, IsNumeral, Zeros;
    NumeralValueAppend(10, Zeros(zeros), Numeral(10, f));
  }

  /** The digits of a number below 10^n fit n places. */
  lemma FitsPlaces(f: nat, n: nat)
    requires n > 0 && f < Pow(10, n)
    ensures |Numeral(10, f)| <= n
  {
    if f == 0 {
      NumeralUnfold(10, 0);
    } else {
      NumeralLength(10, f);
      LengthUnique(10, f, |Numeral(10, f)| - 1, n);
    }
  }

  /** 5^n times an n-bit number is below 10^n. */
  lemma FractionBound(r: nat, n: nat)
    requires r < Pow(2, n)
    ensures Pow(5, n) * r < Pow(10, n)
  {
    PowMul(5, 2, n);
    PowPos(5, n);
    MulMono(Pow(5, n), r + 1, Pow(2, n));
    Distribute(Pow(5, n), r, 1);
  }

  /** Splitting M at the binary point. */
  lemma SplitMantissa(M: nat, m: nat, z: nat, n: nat)
    requires M == m * Pow(2, z)
    ensures Pow(2, n) > 0
    ensures var r, k := m % Pow(2, n), z + n;
            && Pow(2, k) > 0
            && 0 <= r < Pow(2, n)
            && M / Pow(2, k) == m / Pow(2, n)
            && M == m / Pow(2, n) * Pow(2, k) + r * Pow(2, z)
  {
    PowPos(2, n);
    PowPos(2, z);
    PowPos(2, z + n);
    PowAdd(2, z, n);
    var p, y := Pow(2, n), Pow(2, z);
    hide Pow;
    SplitArithmetic(M, m, y, p, m / p, m % p);
  }

  lemma SplitArithmetic(M: nat, m: nat, y: nat, p: nat, q: nat, r: nat)
    requires p > 0 && y > 0 && M == m * y && m == q * p + r && r < p
    ensures y * p > 0 && M / (y * p) == q && M == q * (y * p) + r * y
  {
    Distribute(y, q * p, r);
    MulAssoc(q, p, y);
    assert p * y == y * p;
    MulMono(y, r + 1, p);
    Distribute(y, r, 1);
    DivUnique(M, y * p, q, r * y);
  }

  /** Writing the fraction with its zeros makes the numeral exact. */
  lemma FractionDenotes(M: nat, E: int, m: nat, z: nat, n: nat, x: string, zeros: nat)
    requires M == m * Pow(2, z) && (if E < 0 then z + n == -E else n == 0) && Pow(2, n) > 0
    requires x == Numeral(10, Pow(5, n) * (m % Pow(2, n))) && zeros == if |x| < n then n - |x| else 0
    ensures Denotes(Floor(M, E), Zeros(zeros) + x, M, E)
    ensures |Zeros(zeros) + x| == if n == 0 then 1 else n
  {
    hide Pow, NumeralValue, IsNumeral, Numeral, Zeros;
    SplitMantissa(M, m, z, n);
    var r := m % Pow(2, n);
    var f := Pow(5, n) * r;
    PaddedValue(zeros, f);
    FractionBound(r, n);
    if n == 0 {
      PowZero(2);
      NumeralUnfold(10, 0);
      assert f == 0;
    } else {
      FitsPlaces(f, n);
    }
    var frac := Zeros(zeros) + x;
    var p := Pow(10, |frac|);
    if E < 0 {
      assert (Floor(M, E) * p + f) * Pow(2, -E) == M * p by {
        ScaledFraction(Floor(M, E), p, n, r, z, M, f);
      }
    }
  }

  lemma ScaledFraction(i: nat, p: nat, n: nat, r: nat, z: nat, M: nat, f: nat)
    requires M == i * Pow(2, z + n) + r * Pow(2, z) && f == Pow(5, n) * r
    requires if n == 0 then r == 0 else p == Pow(10, n)
    ensures (i * p + f) * Pow(2, z + n) == M * p
  {
    hide Pow;
    var k, y := Pow(2, z + n), Pow(2, z);
    if n != 0 {
      PowAdd(2, z, n);
      PowMul(5, 2, n);
      FractionScale(Pow(5, n), Pow(2, n), r, y);
    }
    assert f * k == p * (r * y);
    SumScale(i, p, k, r * y, f);
  }

  lemma SumScale(i: int, p: int, k: int, x: int, f: int)
    requires f * k == p * x
    ensures (i * p + f) * k == (i * k + x) * p
  {
    Distribute(k, i * p, f);
    Distribute(p, i * k, x);
    MulAssoc(i, p, k);
    MulAssoc(i, k, p);
  }

  lemma FractionScale(a: int, b: int, r: int, y: int)
    ensures a * r * (y * b) == a * b * (r * y)
  {
    MulAssoc(a, r, y * b);
    MulAssoc(r, y, b);
    MulAssoc(a, b, r * y);
    assert r * y * b == b * (r * y);
  }

  /** The last digit of a fraction that does not vanish is 5, so no zero trails. */
  lemma LastDigit(m: nat, n: nat)
    requires n > 0 && m % 2 == 1 && Pow(2, n) > 0
    ensures (Pow(5, n) * (m % Pow(2, n))) % 10 == 5
  {
    var p := Pow(2, n - 1);
    PowPos(2, n - 1);
    var r := m % Pow(2, n);
    OddRemainder(m, p, r);
    OddPower(n);
    var a := Pow(5, n - 1);
    assert Pow(5, n) == 5 * a;
    hide Pow;
    MulAssoc(5, a, r);
    OddTimesOdd(a, r);
  }

  lemma OddRemainder(m: nat, p: nat, r: nat)
    requires p > 0 && m % 2 == 1 && r == m % (2 * p)
    ensures r % 2 == 1
  {
    var q := m / (2 * p);
    assert m == q * (2 * p) + r;
    MulAssoc(q, 2, p);
    assert m == 2 * (q * p) + r;
  }

  lemma {:induction false} OddPower(n: nat)
    requires n > 0
    ensures Pow(5, n - 1) % 2 == 1
  {
    if n > 1 {
      OddPower(n - 1);
      assert Pow(5, n - 1) == 5 * Pow(5, n - 2);
    }
  }

  lemma OddTimesOdd(a: nat, r: nat)
    requires a % 2 == 1 && r % 2 == 1
    ensures (5 * (a * r)) % 10 == 5
  {
    var h := a / 2;
    assert a == 2 * h + 1;
    Distribute(r, 2 * h, 1);
    MulAssoc(2, h, r);
    assert a * r == 2 * (h * r) + r;
    assert a * r % 2 == 1;
  }

  lemma LastChar(f: nat)
    requires f % 10 == 5
    ensures var x := Numeral(10, f); x[|x| - 1] == '5'
  {
    NumeralUnfold(10, f);
    assert DIGITS[5] == '5';
  }

  lemma NoFraction(m: nat, x: string)
    requires Pow(2, 0) > 0 && x == Numeral(10, Pow(5, 0) * (m % Pow(2, 0)))
    ensures x == "0"
  {
  }

  /** The digits of the fraction, and the number of zeros in front of them: exact to the last digit. */
  method Fraction(E: int, M: u64) returns (x: string, zeros: nat)
    ensures Denotes(Floor(M, E), Zeros(zeros) + x, M, E) && Trimmed(Zeros(zeros) + x)
  {
    hide Pow, Floor, Denotes, Numeral;
    var e, m := DropZeros(E, M);
    var digits: nat := if e < 0 then -e else 0;
    x := FractionDigits(e, m);
    zeros := if |x| < digits then digits - |x| else 0;
    PowOne(M);
    FractionDenotes(M, E, m, if E < 0 then e - E else 0, digits, x, zeros);
    if digits > 0 {
      LastDigit(m, digits);
      LastChar(Pow(5, digits) * (m % Pow(2, digits)));
    } else {
      NoFraction(m, x);
    }
  }

  lemma PowOne(M: nat)
    ensures M == M * Pow(2, 0)
  {
  }

  /** No zero trails, unless it is the only digit. */
  ghost predicate Trimmed(frac: string) { frac == "0" || (frac != [] && frac[|frac| - 1] == '5') }

  /** The integer part, a point and the fraction. */
  ghost predicate IsDecimal(dec: string, M: nat, E: int) {
    var i := Numeral(10, Floor(M, E));
    && |i| < |dec| && dec[..|i|] == i && dec[|i|] == '.'
    && Denotes(Floor(M, E), dec[|i| + 1..], M, E) && Trimmed(dec[|i| + 1..])
  }

  /** The numeral of M * 2^E, exact to the last digit and without trailing zeros. */
  method Decimal(E: int, M: u64) returns (dec: string)
    requires E < 0x8000_0000
    ensures IsDecimal(dec, M, E)
  {
    hide Floor, Denotes, Numeral, Trimmed;
    dec := Integer(E, M);
    ghost var i := dec;
    var x, zeros := Fraction(E, M);
    dec := dec + ".";
    dec := dec + Zeros(zeros);
    dec := dec + x;
    assert dec == i + ("." + (Zeros(zeros) + x));
    assert dec[|i| + 1..] == Zeros(zeros) + x;
  }
}
