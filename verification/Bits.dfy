/** Single bits of a 32-bit word. */
module Bits {

  /** The word with only bit i set. */
  function One(i: nat): (m: bv32)
    requires i < 32
  {
    if i == 0 then 1 else One(i - 1) << 1
  }

  predicate At(x: bv32, m: bv32) { x & m != 0 }

  predicate Bit(x: bv32, i: nat)
    requires i < 32
  {
    At(x, One(i))
  }

  predicate Power(m: bv32) { m != 0 && m & (m - 1) == 0 }

  /** A power of two that shifting once more does not lose. */
  predicate SmallPower(m: bv32) { Power(m) && m < 0x8000_0000 }

  // ----- words -----

  lemma OrAt(x: bv32, y: bv32, m: bv32)
    ensures At(x | y, m) <==> At(x, m) || At(y, m)
  {
    assert (x | y) & m == (x & m) | (y & m);
    OrZero(x & m, y & m);
  }

  lemma OrZero(a: bv32, b: bv32)
    ensures a | b == 0 <==> a == 0 && b == 0
  {
  }

  lemma NotAt(x: bv32, m: bv32)
    requires Power(m)
    ensures At(!x, m) <==> !At(x, m)
  {
  }

  lemma RightAt(x: bv32, m: bv32)
    requires SmallPower(m)
    ensures At(x >> 1, m) <==> At(x, m << 1)
  {
  }

  lemma LeftAt(x: bv32, m: bv32)
    requires SmallPower(m)
    ensures At(x << 1, m << 1) <==> At(x, m)
  {
  }

  lemma Ends(x: bv32)
    ensures !At(x >> 1, 0x8000_0000) && !At(x << 1, 1) && !At(1, x << 1) && At(1, 1) && !At(0, x)
  {
  }

  lemma DoublePower(m: bv32)
    requires SmallPower(m)
    ensures Power(m << 1) && m << 1 != 1
  {
  }

  lemma BelowStep(m: bv32)
    requires SmallPower(m)
    ensures (m << 1) - 1 == (m - 1) | m
  {
  }

  lemma LowestStep(x: bv32, m: bv32)
    requires SmallPower(m) && !At(x, 1) && !At(x >> 1, m - 1)
    ensures !At(x, (m << 1) - 1)
  {
  }

  lemma DropLowest(x: bv32, m: bv32, n: bv32)
    requires Power(m) && Power(n) && At(x, m) && !At(x, m - 1)
    ensures At(x & (x - 1), n) <==> At(x, n) && !At(m, n)
  {
  }

  lemma AndZero(x: bv32, y: bv32, m: bv32)
    requires !At(x, y) && At(y, m) && Power(m)
    ensures !At(x, m)
  {
  }

  // ----- the words One(i) -----

  lemma OneStep(i: nat)
    requires i < 31
    ensures One(i + 1) == One(i) << 1
  {
  }

  lemma OneFour(i: nat)
    requires i + 4 < 32
    ensures One(i + 4) == One(i) << 4
  {
    OneStep(i);
    OneStep(i + 1);
    OneStep(i + 2);
    OneStep(i + 3);
    hide One;
    ShiftFour(One(i));
  }

  lemma ShiftFour(m: bv32)
    ensures m << 1 << 1 << 1 << 1 == m << 4
  {
  }

  lemma TopOne()
    ensures One(31) == 0x8000_0000
  {
    assert One(3) == 8;
    OneFour(3);
    OneFour(7);
    OneFour(11);
    OneFour(15);
    OneFour(19);
    OneFour(23);
    OneFour(27);
  }

  lemma {:induction false} ZeroStays(i: nat, j: nat)
    requires i <= j < 32 && One(i) == 0
    ensures One(j) == 0
  {
    if i < j {
      ZeroStays(i, j - 1);
      OneStep(j - 1);
    }
  }

  lemma OneNotZero(i: nat)
    requires i < 32
    ensures One(i) != 0
  {
    TopOne();
    hide One;
    if One(i) == 0 {
      ZeroStays(i, 31);
    }
  }

  lemma {:induction false} OneIsPower(i: nat)
    requires i < 32
    ensures Power(One(i)) && (i < 31 ==> SmallPower(One(i)))
  {
    if i < 31 {
      OneNotZero(i + 1);
      OneStep(i);
    }
    if i != 0 {
      OneStep(i - 1);
      hide One;
      OneIsPower(i - 1);
      DoublePower(One(i - 1));
      SmallWhenDoubled(One(i));
    } else {
      assert One(0) == 1;
    }
  }

  lemma SmallWhenDoubled(m: bv32)
    requires Power(m)
    ensures m << 1 != 0 ==> SmallPower(m)
  {
  }

  // ----- the bits of compound words -----

  lemma BitOr(x: bv32, y: bv32, i: nat)
    requires i < 32
    ensures Bit(x | y, i) <==> Bit(x, i) || Bit(y, i)
  {
    hide At, One;
    OrAt(x, y, One(i));
  }

  lemma BitNot(x: bv32, i: nat)
    requires i < 32
    ensures Bit(!x, i) <==> !Bit(x, i)
  {
    hide At, One;
    OneIsPower(i);
    NotAt(x, One(i));
  }

  lemma BitRight(x: bv32, i: nat)
    requires i < 32
    ensures Bit(x >> 1, i) <==> i < 31 && Bit(x, i + 1)
  {
    hide At, One;
    OneIsPower(i);
    if i < 31 {
      OneStep(i);
      RightAt(x, One(i));
    } else {
      TopOne();
      Ends(x);
    }
  }

  lemma BitLeft(x: bv32, i: nat)
    requires i < 32
    ensures Bit(x << 1, i) <==> i > 0 && Bit(x, i - 1)
  {
    if i == 0 {
      assert One(0) == 1;
      Ends(x);
    } else {
      hide At, One;
      OneIsPower(i - 1);
      OneStep(i - 1);
      LeftAt(x, One(i - 1));
    }
  }

  lemma {:induction false} BitOne(c: nat, i: nat)
    requires c < 32 && i < 32
    ensures Bit(One(c), i) <==> i == c
  {
    assert One(0) == 1;
    if c == 0 {
      hide At;
      if i != 0 {
        OneStep(i - 1);
        Ends(One(i - 1));
      } else {
        Ends(0);
      }
    } else {
      OneStep(c - 1);
      hide One, At;
      BitLeft(One(c - 1), i);
      if i != 0 {
        BitOne(c - 1, i - 1);
      }
    }
  }

  /** The low n bits. */
  lemma {:induction false} BitBelow(n: nat, i: nat)
    requires n < 32 && i < 32
    ensures Bit(One(n) - 1, i) <==> i < n
  {
    if n == 0 {
      assert One(0) == 1;
      Ends(One(i));
    } else {
      OneStep(n - 1);
      hide One, At;
      BitBelow(n - 1, i);
      BitOne(n - 1, i);
      OneIsPower(n - 1);
      BelowStep(One(n - 1));
      BitOr(One(n - 1) - 1, One(n - 1), i);
    }
  }

  // ----- counting trailing zeros -----

  /** __builtin_ctz: the index of the lowest set bit. */
  function TrailingZeros(x: bv32): (i: nat)
    requires x != 0
    decreases x
  {
    if x & 1 != 0 then 0 else TrailingZeros(x >> 1) + 1
  }

  /** Bit i is the lowest set bit. */
  predicate Lowest(x: bv32, i: nat) { i < 32 && Bit(x, i) && !At(x, One(i) - 1) }

  lemma LowestUp(x: bv32, i: nat)
    requires !At(x, 1) && Lowest(x >> 1, i)
    ensures Lowest(x, i + 1)
  {
    hide One, At;
    BitRight(x, i);
    OneStep(i);
    OneIsPower(i);
    LowestStep(x, One(i));
  }

  lemma {:induction false} TrailingZerosIsLowest(x: bv32)
    requires x != 0
    ensures Lowest(x, TrailingZeros(x))
    decreases x
  {
    if x & 1 != 0 {
      assert One(0) == 1;
    } else {
      hide Lowest;
      TrailingZerosIsLowest(x >> 1);
      LowestUp(x, TrailingZeros(x >> 1));
    }
  }

  lemma ZeroBelow(x: bv32, i: nat, j: nat)
    requires Lowest(x, i) && j < i
    ensures !Bit(x, j)
  {
    hide One, At;
    BitBelow(i, j);
    OneIsPower(j);
    AndZero(x, One(i) - 1, One(j));
  }

  /** x & (x - 1) clears the lowest set bit and no other. */
  lemma ClearLowest(x: bv32, j: nat)
    requires x != 0 && j < 32
    ensures TrailingZeros(x) < 32 && Bit(x, TrailingZeros(x)) && (j < TrailingZeros(x) ==> !Bit(x, j))
    ensures Bit(x & (x - 1), j) <==> Bit(x, j) && j != TrailingZeros(x)
  {
    hide One, At, TrailingZeros;
    var i := TrailingZeros(x);
    TrailingZerosIsLowest(x);
    if j < i {
      ZeroBelow(x, i, j);
    }
    OneIsPower(i);
    BitOne(i, j);
    OneIsPower(j);
    DropLowest(x, One(i), One(j));
  }
}
