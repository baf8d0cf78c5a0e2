/** Natural numbers as little-endian sequences of 32-bit limbs. */
module Limbs {
  import opened Numbers

  const BASE := 0x1_0000_0000
  const MASK := 0xFFFF_FFFF

  type u32 = x: int | 0 <= x < 0x1_0000_0000
  type u64 = x: int | 0 <= x < 0x1_0000_0000_0000_0000

  function Value(s: seq<u32>): (n: nat) {
    if s == [] then 0 else s[0] + BASE * Value(s[1..])
  }

  predicate Normal(s: seq<u32>) { s == [] || s[|s| - 1] != 0 }

  /** The weight of limb i. */
  function Weight(i: nat): (w: nat)
    ensures w > 0
  {
    PowPos(BASE, i);
    Pow(BASE, i)
  }

  /** A carry out of the limbs below index i. */
  ghost function Shifted(c: int, i: nat): (v: int) { Weight(i) * c }

  lemma WeightNext(i: nat)
    ensures Weight(i + 1) == Weight(i) * BASE && Weight(0) == 1
  {
  }

  lemma {:induction false} ValueAppend(s: seq<u32>, t: seq<u32>)
    ensures Value(s + t) == Value(s) + Weight(|s|) * Value(t)
  {
    if s == [] {
      assert s + t == t;
    } else {
      assert (s + t)[1..] == s[1..] + t;
      ValueAppend(s[1..], t);
      var w, v := Weight(|s| - 1), Value(t);
      Distribute(BASE, Value(s[1..]), w * v);
      MulAssoc(BASE, w, v);
    }
  }

  lemma ValueSnoc(s: seq<u32>, x: u32)
    ensures Value(s + [x]) == Value(s) + Weight(|s|) * x
  {
    ValueAppend(s, [x]);
    assert Value([x]) == x;
  }

  /** One more limb of a prefix. */
  lemma ValueTake(s: seq<u32>, i: nat)
    requires i < |s|
    ensures Value(s[..i + 1]) == Value(s[..i]) + Weight(i) * s[i]
  {
    assert s[..i + 1] == s[..i] + [s[i]];
    ValueSnoc(s[..i], s[i]);
  }

  lemma ValueSplit(s: seq<u32>, i: nat)
    requires i <= |s|
    ensures Value(s) == Value(s[..i]) + Weight(i) * Value(s[i..])
  {
    assert s == s[..i] + s[i..];
    ValueAppend(s[..i], s[i..]);
  }

  lemma {:induction false} ValueBound(s: seq<u32>)
    ensures Value(s) < Weight(|s|)
  {
    if s != [] {
      ValueBound(s[1..]);
      MulMono(BASE, Value(s[1..]) + 1, Weight(|s| - 1));
    }
  }

  /** A normal number is at least the weight of its top limb. */
  lemma NormalBound(s: seq<u32>)
    requires Normal(s) && s != []
    ensures Value(s) >= Weight(|s| - 1)
  {
    var n := |s| - 1;
    ValueTake(s, n);
    assert s[..n + 1] == s;
    MulMono(Weight(n), 1, s[n]);
  }

  lemma {:induction false} ValueZeros(s: seq<u32>)
    requires forall i | 0 <= i < |s| :: s[i] == 0
    ensures Value(s) == 0
  {
    if s != [] {
      ValueZeros(s[1..]);
    }
  }

  /** Limbs of the same length with the same value are the same. */
  lemma {:induction false} SameLength(s: seq<u32>, t: seq<u32>)
    requires |s| == |t| && Value(s) == Value(t)
    ensures s == t
  {
    if s != [] {
      var p, q := Value(s[1..]), Value(t[1..]);
      DivUnique(Value(s), BASE, p, s[0]);
      DivUnique(Value(t), BASE, q, t[0]);
      SameLength(s[1..], t[1..]);
      assert s == [s[0]] + s[1..] && t == [t[0]] + t[1..];
    }
  }

  /** Shorter normal numbers are smaller. */
  lemma ShorterIsLess(s: seq<u32>, t: seq<u32>)
    requires |s| < |t| && Normal(t)
    ensures Value(s) < Value(t)
  {
    ValueBound(s);
    NormalBound(t);
    PowMono(BASE, |s|, |t| - 1);
  }

  /** The normal form of a number is unique. */
  lemma NormalUnique(s: seq<u32>, t: seq<u32>)
    requires Normal(s) && Normal(t) && Value(s) == Value(t)
    ensures s == t
  {
    if |s| < |t| {
      ShorterIsLess(s, t);
    } else if |t| < |s| {
      ShorterIsLess(t, s);
    } else {
      SameLength(s, t);
    }
  }

  // ----- the carry of one column -----

  /** Column sums: digit and carry of x + y + c, at the weight w. */
  lemma ColumnSum(w: nat, x: int, y: int, c: int, d: int, c': int)
    requires x + y + c == d + BASE * c'
    ensures w * d + w * BASE * c' == w * x + w * y + w * c
  {
    Distribute(w, x + y, c);
    Distribute(w, x, y);
    Distribute(w, d, BASE * c');
    MulAssoc(w, BASE, c');
  }

  /** Normal form, seen from the value. */
  lemma NormalIff(s: seq<u32>)
    requires s != []
    ensures Normal(s) <==> Value(s) >= Weight(|s| - 1)
  {
    if Normal(s) {
      NormalBound(s);
    } else {
      var n := |s| - 1;
      ValueTake(s, n);
      assert s[..n + 1] == s;
      ValueBound(s[..n]);
    }
  }

  /** A zero limb on top changes nothing. */
  lemma DropTopZero(s: seq<u32>)
    requires s != [] && s[|s| - 1] == 0
    ensures Value(s[..|s| - 1]) == Value(s)
  {
    ValueTake(s, |s| - 1);
    assert s[..|s|] == s;
  }

  lemma WeightAdd(i: nat, j: nat)
    ensures Weight(i + j) == Weight(i) * Weight(j)
  {
    PowAdd(BASE, i, j);
  }

  /** Zero limbs above index i do not count. */
  lemma ValueZerosAbove(s: seq<u32>, i: nat)
    requires i <= |s| && forall k | i <= k < |s| :: s[k] == 0
    ensures Value(s) == Value(s[..i])
  {
    ValueSplit(s, i);
    ValueZeros(s[i..]);
  }

  // ----- order -----

  /** std::lexicographical_compare on the limbs read from the top. */
  predicate LexLess(s: seq<u32>, t: seq<u32>)
    requires |s| == |t|
  {
    s != [] && var n := |s| - 1; s[n] < t[n] || (s[n] == t[n] && LexLess(s[..n], t[..n]))
  }

  lemma {:induction false} LexLessIsLess(s: seq<u32>, t: seq<u32>)
    requires |s| == |t|
    ensures LexLess(s, t) <==> Value(s) < Value(t)
  {
    if s != [] {
      var n := |s| - 1;
      LexLessIsLess(s[..n], t[..n]);
      ValueTake(s, n);
      ValueTake(t, n);
      assert s[..n + 1] == s && t[..n + 1] == t;
      ValueBound(s[..n]);
      ValueBound(t[..n]);
      hide Value, Weight;
      TopDecides(Weight(n), s[n], t[n], Value(s[..n]), Value(t[..n]));
    }
  }

  /** The top limb decides unless it is the same. */
  lemma TopDecides(w: int, x: int, y: int, a: int, b: int)
    requires 0 <= a < w && 0 <= b < w
    ensures a + w * x < b + w * y <==> x < y || (x == y && a < b)
  {
    if x < y {
      MulMono(w, x + 1, y);
      Distribute(w, x, 1);
    } else if y < x {
      MulMono(w, y + 1, x);
      Distribute(w, y, 1);
    }
  }

  predicate Less(s: seq<u32>, t: seq<u32>) {
    |t| > |s| || (|t| == |s| && LexLess(s, t))
  }

  /** On normal numbers the comparison of the limbs is the numeric order. */
  lemma LessIsNumeric(s: seq<u32>, t: seq<u32>)
    requires Normal(s) && Normal(t)
    ensures Less(s, t) <==> Value(s) < Value(t)
  {
    if |s| < |t| {
      ShorterIsLess(s, t);
    } else if |t| < |s| {
      ShorterIsLess(t, s);
    } else {
      LexLessIsLess(s, t);
    }
  }

  // ----- the loop invariants of the algorithms, and one step of each -----

  /** The limbs from index i on are the same. */
  ghost predicate SameFrom(z: seq<u32>, s: seq<u32>, i: nat) {
    |z| == |s| && forall k | i <= k < |s| :: z[k] == s[k]
  }

  /** Below index i, z with the carry c is s plus v. */
  ghost predicate Sum(z: seq<u32>, s: seq<u32>, i: nat, v: int, c: int)
    requires i <= |z| && i <= |s|
  {
    Value(z[..i]) + Shifted(c, i) == Value(s[..i]) + v
  }

  /** Below index i, z with the carry c is s times x. */
  ghost predicate Scaled(z: seq<u32>, s: seq<u32>, i: nat, x: int, c: int)
    requires i <= |z| && i <= |s|
  {
    Value(z[..i]) + Shifted(c, i) == Value(s[..i]) * x
  }

  /** Below index i + j, z with the carry c is z0 plus r times the first j limbs of s, shifted by i. */
  ghost predicate RowSum(z: seq<u32>, z0: seq<u32>, s: seq<u32>, r: int, i: nat, j: nat, c: int)
    requires i + j <= |z| && i + j <= |z0| && j <= |s|
  {
    Value(z[..i + j]) + Shifted(c, i + j) == Value(z0[..i + j]) + Weight(i) * (r * Value(s[..j]))
  }

  /** From index i on, z is s divided by x with remainder c. */
  ghost predicate Divided(z: seq<u32>, s: seq<u32>, i: nat, x: int, c: int)
    requires i <= |z| && i <= |s|
  {
    Value(z[i..]) * x + c == Value(s[i..])
  }

  lemma Start(z: seq<u32>, s: seq<u32>)
    ensures Sum(z, s, 0, 0, 0) && Sum(z, s, 0, Value(s[..0]), 0)
    ensures forall x :: Scaled(z, s, 0, x, 0)
    ensures s[..|s|] == s && z[..|z|] == z
    ensures Value(s[..0]) == 0
  {
    forall x ensures Scaled(z, s, 0, x, 0) {}
  }

  /** One column of an addition: digit d and carry c'.  With a negative sign it is a column of a
      subtraction with digit d and borrow c'. */
  lemma SumStep(z: seq<u32>, s: seq<u32>, t: seq<u32>, i: nat, sign: int, c: int, d: u32, c': int)
    requires i < |z| && i < |s| && i < |t|
    requires Sum(z, s, i, sign * Value(t[..i]), c)
    requires s[i] + sign * t[i] + c == d + BASE * c'
    ensures Sum(z[i := d], s, i + 1, sign * Value(t[..i + 1]), c')
  {
    var z', w := z[i := d], Weight(i);
    assert z'[..i] == z[..i];
    ValueTake(z', i);
    ValueTake(s, i);
    ValueTake(t, i);
    ColumnSum(w, s[i], sign * t[i], c, d, c');
    Distribute(sign, Value(t[..i]), w * t[i]);
    assert sign * (w * t[i]) == w * (sign * t[i]) by {
      MulAssoc(sign, w, t[i]);
      MulAssoc(w, sign, t[i]);
    }
  }

  /** One column of the propagation of a carry or a borrow. */
  lemma CarryStep(z: seq<u32>, s: seq<u32>, i: nat, v: int, c: int, d: u32, c': int)
    requires i < |z| && i < |s| && Sum(z, s, i, v, c)
    requires s[i] + c == d + BASE * c'
    ensures Sum(z[i := d], s, i + 1, v, c')
  {
    var z' := z[i := d];
    assert z'[..i] == z[..i];
    ValueTake(z', i);
    ValueTake(s, i);
    ColumnSum(Weight(i), s[i], 0, c, d, c');
  }

  /** What is above index i is untouched, so without a carry the whole value follows. */
  lemma SumDone(z: seq<u32>, s: seq<u32>, i: nat, v: int)
    requires i <= |s| && SameFrom(z, s, i) && Sum(z, s, i, v, 0)
    ensures Value(z) == Value(s) + v
  {
    assert z[i..] == s[i..];
    ValueSplit(z, i);
    ValueSplit(s, i);
  }

  /** One column of a multiplication by a single limb. */
  lemma ScaleStep(z: seq<u32>, s: seq<u32>, i: nat, x: int, c: int, d: u32, c': int)
    requires i < |z| && i < |s| && Scaled(z, s, i, x, c)
    requires s[i] * x + c == d + BASE * c'
    ensures Scaled(z[i := d], s, i + 1, x, c')
  {
    var z', w := z[i := d], Weight(i);
    assert z'[..i] == z[..i];
    ValueTake(z', i);
    ValueTake(s, i);
    WeightNext(i);
    hide Value, Weight;
    ColumnSum(w, s[i] * x, 0, c, d, c');
    ScaleWeight(w, Value(s[..i]), s[i], x);
  }

  lemma ScaleWeight(w: int, a: int, l: int, x: int)
    ensures (a + w * l) * x == a * x + w * (l * x)
  {
    Distribute(x, a, w * l);
    MulAssoc(w, l, x);
  }

  /** One column of one row of a long multiplication: row i of the multiplier r times s. */
  lemma RowStep(z: seq<u32>, z0: seq<u32>, s: seq<u32>, r: int, i: nat, j: nat, c: int, d: u32, c': int)
    requires j < |s| && i + j < |z| && |z0| == |z| && RowSum(z, z0, s, r, i, j, c)
    requires r * s[j] + z0[i + j] + c == d + BASE * c'
    ensures RowSum(z[i + j := d], z0, s, r, i, j + 1, c')
  {
    var k, w := i + j, Weight(i + j);
    var z' := z[k := d];
    assert z'[..k] == z[..k];
    ValueTake(z', k);
    ValueTake(z0, k);
    ValueTake(s, j);
    ColumnSum(w, r * s[j], z0[k], c, d, c');
    RowWeight(i, j, r, Value(s[..j]), s[j]);
  }

  lemma RowWeight(i: nat, j: nat, r: int, a: int, x: int)
    ensures Weight(i) * (r * (a + Weight(j) * x)) == Weight(i) * (r * a) + Weight(i + j) * (r * x)
  {
    var b := Weight(j) * x;
    Distribute(r, a, b);
    Distribute(Weight(i), r * a, r * b);
    WeightAdd(i, j);
    MulAssoc(r, Weight(j), x);
    MulAssoc(Weight(j), r, x);
    MulAssoc(Weight(i), Weight(j), r * x);
  }

  lemma RowStart(z: seq<u32>, s: seq<u32>, r: int, i: nat)
    requires i <= |z|
    ensures RowSum(z, z, s, r, i, 0, 0)
  {
    assert Value(s[..0]) == 0;
  }

  /** One row of a long multiplication is done. */
  lemma RowDone(z: seq<u32>, z0: seq<u32>, s: seq<u32>, t: seq<u32>, i: nat, c: u32)
    requires i < |t| && |z0| == |s| + |t| && SameFrom(z, z0, i + |s|)
    requires Value(z0) == Value(s) * Value(t[..i])
    requires forall k | i + |s| <= k < |z0| :: z0[k] == 0
    requires RowSum(z, z0, s, t[i], i, |s|, c)
    ensures Value(z[i + |s| := c]) == Value(s) * Value(t[..i + 1])
  {
    var k := i + |s|;
    var z' := z[k := c];
    assert z'[..k] == z[..k] && s[..|s|] == s;
    ValueTake(z', k);
    ValueZerosAbove(z', k + 1);
    ValueZerosAbove(z0, k);
    ValueTake(t, i);
    hide Value;
    Distribute(Value(s), Value(t[..i]), Weight(i) * t[i]);
    MulAssoc(Weight(i), t[i], Value(s));
  }

  /** One limb of a division by x, from the top. */
  lemma DivideStep(z: seq<u32>, s: seq<u32>, i: nat, x: int, c: int, q: u32, c': int)
    requires 0 < i <= |z| && |z| == |s| && Divided(z, s, i, x, c)
    requires IsQuotient(c, s[i - 1], x, q, c')
    ensures Divided(z[i - 1 := q], s, i - 1, x, c')
  {
    var z' := z[i - 1 := q];
    assert z'[i - 1..][1..] == z[i..];
    assert s[i - 1..][1..] == s[i..];
    var v := Value(z[i..]);
    Distribute(x, q, BASE * v);
    MulAssoc(BASE, v, x);
    Distribute(BASE, v * x, c);
  }

  /** q and r are the quotient and remainder of the two-limb number c, l by x. */
  ghost predicate IsQuotient(c: int, l: int, x: int, q: int, r: int) {
    c * BASE + l == q * x + r && 0 <= r < x
  }

  /** Dividing a normal number by one limb shortens it by at most one limb. */
  lemma QuotientNormal(s: seq<u32>, q: seq<u32>, x: int, r: int)
    requires |q| == |s| && 0 < x < BASE && 0 <= r < x && Divided(q, s, 0, x, r)
    requires Normal(s) && s != []
    ensures q[|q| - 1] == 0 ==> Normal(q[..|q| - 1])
  {
    var n := |q| - 1;
    assert q[0..] == q && s[0..] == s;
    if q[n] == 0 && n > 0 {
      DropTopZero(q);
      NormalBound(s);
      var w := Weight(n - 1);
      WeightNext(n - 1);
      hide Value, Weight;
      QuotientBound(w, x, Value(q), r, Value(s));
      NormalIff(q[..n]);
    }
  }

  lemma QuotientBound(w: nat, x: int, q: int, r: int, v: int)
    requires 0 < x < BASE && r < x && v == q * x + r && v >= w * BASE && w > 0
    ensures q >= w
  {
    if q < w {
      MulMono(x, q + 1, w);
      Distribute(x, q, 1);
      MulMono(w, x + 1, BASE);
      Distribute(w, x, 1);
    }
  }
}
