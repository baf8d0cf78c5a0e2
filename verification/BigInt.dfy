/** Arbitrary-precision unsigned integers: schoolbook arithmetic on 32-bit limbs, in place.
    Local sums and products have type u64, so that their range is checked. */
module BigInt {
  import opened Numbers
  import opened Limbs
  import opened Numerals

  class UnsignedInt {
    var limbs: seq<u32>

    constructor (x: u32)
      ensures Value(limbs) == x && Normal(limbs)
    {
      limbs := if x > 0 then [x] else [];
    }

    /** A copy, as made by the implicit copy constructor. */
    constructor Copy(x: UnsignedInt)
      ensures limbs == x.limbs
    {
      limbs := x.limbs;
    }

    predicate IsNormal() reads this { Normal(limbs) }

    predicate LessThan(x: UnsignedInt)
      reads this, x
    {
      Less(limbs, x.limbs)
    }

    method Swap(x: UnsignedInt)
      modifies this, x
      ensures limbs == old(x.limbs) && x.limbs == old(limbs)
    {
      limbs, x.limbs := x.limbs, limbs;
    }

    method Assign(x: u32)
      modifies this
      ensures Value(limbs) == x && Normal(limbs)
    {
      limbs := if x == 0 then [] else [x];
    }

    /** Adds one limb.  The sum is normal except that 0 + 0 leaves the single limb 0. */
    method AddSmall(x: u32)
      modifies this
      ensures Value(limbs) == old(Value(limbs)) + x
      ensures old(Normal(limbs)) ==> (Normal(limbs) <==> old(limbs) != [] || x != 0)
      ensures old(limbs) == [] || old(limbs) == [0] ==> limbs == [x]
    {
      if limbs == [] {
        limbs := [x];
        return;
      }
      hide Value, Normal, Sum;
      ghost var s := limbs;
      var d, carry := SplitSum(limbs[0] + x);
      limbs := limbs[0 := d];
      FirstLimb(s, x, d, carry);
      var i := 1;
      while i < |limbs| && carry != 0
        invariant 1 <= i <= |limbs| && 0 <= carry <= 1
        invariant SameFrom(limbs, s, i) && Sum(limbs, s, i, x, carry)
      {
        var carry';
        d, carry' := SplitSum(limbs[i] + carry);
        CarryStep(limbs, s, i, x, carry, d, carry');
        limbs := limbs[i := d];
        carry := carry';
        i := i + 1;
      }
      CarryOut(limbs, s, i, x, carry);
      if carry != 0 {
        limbs := limbs + [carry];
      }
    }

    /** Adds x, which may be this very number. */
    method Add(x: UnsignedInt)
      modifies this
      ensures Value(limbs) == old(Value(limbs)) + old(Value(x.limbs))
      ensures old(Normal(limbs)) && old(Normal(x.limbs)) ==> Normal(limbs)
    {
      hide Value, Normal, Sum;
      ghost var a, t := limbs, x.limbs;
      if |x.limbs| > |limbs| {
        limbs := limbs + seq(|x.limbs| - |limbs|, _ => 0);
        Padded(a, limbs);
      }
      ghost var s := limbs;
      var len := if |limbs| < |x.limbs| then |limbs| else |x.limbs|;
      var carry: u64 := 0;
      var i := 0;
      Start(limbs, s);
      Start(t, t);
      while i < len
        invariant 0 <= i <= len == |t| <= |s| && 0 <= carry <= 1
        invariant SameFrom(limbs, s, i) && SameFrom(x.limbs, t, i)
        invariant Sum(limbs, s, i, 1 * Value(t[..i]), carry)
      {
        var d, carry' := SplitSum(limbs[i] + x.limbs[i] + carry);
        SumStep(limbs, s, t, i, 1, carry, d, carry');
        limbs := limbs[i := d];
        carry := carry';
        i := i + 1;
      }
      if carry != 0 {
        while i < |limbs| && carry != 0
          invariant len <= i <= |limbs| && 0 <= carry <= 1
          invariant SameFrom(limbs, s, i) && Sum(limbs, s, i, Value(t), carry)
        {
          var d, carry' := SplitSum(limbs[i] + carry);
          CarryStep(limbs, s, i, Value(t), carry, d, carry');
          limbs := limbs[i := d];
          carry := carry';
          i := i + 1;
        }
      }
      CarryOut(limbs, s, i, Value(t), carry);
      SumNormal(a, t, limbs, carry);
      if carry != 0 {
        limbs := limbs + [carry];
      }
    }

    /** Subtracts x, which may be this very number.  ok is false where the source aborts: the
        check before the loop catches every underflow, and nothing has changed then. */
    method Sub(x: UnsignedInt) returns (ok: bool)
      requires Normal(limbs) && Normal(x.limbs)
      modifies this
      ensures ok <==> old(Value(limbs)) >= old(Value(x.limbs))
      ensures ok ==> Value(limbs) == old(Value(limbs)) - old(Value(x.limbs)) && Normal(limbs)
      ensures !ok ==> limbs == old(limbs)
    {
      hide Value, Sum;
      LessIsNumeric(limbs, x.limbs);
      if LessThan(x) {
        return false;
      }
      ghost var s, t := limbs, x.limbs;
      assert |x.limbs| <= |limbs|;
      var len := if |limbs| < |x.limbs| then |limbs| else |x.limbs|;
      var carry: u64 := 0;
      var i := 0;
      Start(limbs, s);
      Start(t, t);
      while i < len
        invariant 0 <= i <= len == |t| <= |s| && 0 <= carry <= 1
        invariant SameFrom(limbs, s, i) && SameFrom(x.limbs, t, i)
        invariant Sum(limbs, s, i, -1 * Value(t[..i]), -(carry as int))
      {
        var d, carry' := SplitDifference(limbs[i] - x.limbs[i] - carry);
        SumStep(limbs, s, t, i, -1, -(carry as int), d, -(carry' as int));
        limbs := limbs[i := d];
        carry := carry';
        i := i + 1;
      }
      if carry != 0 {
        while i < |limbs| && carry != 0
          invariant len <= i <= |limbs| && 0 <= carry <= 1
          invariant SameFrom(limbs, s, i) && Sum(limbs, s, i, -1 * Value(t), -(carry as int))
        {
          var d, carry' := SplitDifference(limbs[i] - carry);
          CarryStep(limbs, s, i, -1 * Value(t), -(carry as int), d, -(carry' as int));
          limbs := limbs[i := d];
          carry := carry';
          i := i + 1;
        }
      }
      BorrowOut(limbs, s, t, i, carry);
      assert carry == 0;  // the second underflow check of the source cannot fail
      while limbs != [] && limbs[|limbs| - 1] == 0
        invariant Value(limbs) == Value(s) - Value(t)
        decreases |limbs|
      {
        DropTopZero(limbs);
        limbs := limbs[..|limbs| - 1];
      }
      return true;
    }

    method MultiplySmall(x: u32)
      modifies this
      ensures Value(limbs) == old(Value(limbs)) * x
      ensures old(Normal(limbs)) ==> Normal(limbs)
      ensures old(limbs) == [0] && x > 0 ==> limbs == [0]
    {
      if x == 0 {
        limbs := [];
        return;
      }
      hide Value, Normal, Scaled;
      ghost var s := limbs;
      var carry: u64 := 0;
      var i := 0;
      Start(limbs, s);
      while i < |limbs|
        invariant 0 <= i <= |limbs| && 0 <= carry < x
        invariant SameFrom(limbs, s, i) && Scaled(limbs, s, i, x, carry)
        invariant s == [0] ==> carry == 0 && limbs == [0]
      {
        var d, carry' := ProductLimb(limbs[i], x, 0, carry);
        ScaleStep(limbs, s, i, x, carry, d, carry');
        limbs := limbs[i := d];
        carry := carry';
        i := i + 1;
      }
      ScaleNormal(s, limbs, x, carry);
      if carry != 0 {
        limbs := limbs + [carry];
      }
    }

    /** Multiplies by x, which may be this very number. */
    method Multiply(x: UnsignedInt)
      modifies this
      ensures Value(limbs) == old(Value(limbs)) * old(Value(x.limbs))
      ensures old(Normal(limbs)) && old(Normal(x.limbs)) ==> Normal(limbs)
    {
      if limbs == [] || x.limbs == [] {
        limbs := [];
        return;
      }
      var result: seq<u32> := seq(|limbs| + |x.limbs|, _ => 0);
      ValueZeros(result);
      assert Value(x.limbs[..0]) == 0;
      var i := 0;
      while i < |x.limbs|
        invariant limbs == old(limbs) && x.limbs == old(x.limbs)
        invariant 0 <= i <= |x.limbs| && |result| == |limbs| + |x.limbs|
        invariant forall k | i + |limbs| <= k < |result| :: result[k] == 0
        invariant Value(result) == Value(limbs) * Value(x.limbs[..i])
      {
        ValueTake(x.limbs, i);
        if x.limbs[i] != 0 {
          result := AddRow(result, x.limbs, i);
        }
        i := i + 1;
      }
      assert x.limbs[..i] == x.limbs;
      ProductNormal(limbs, x.limbs, result);
      if result[|result| - 1] == 0 {
        DropTopZero(result);
        result := result[..|result| - 1];
      }
      limbs := result;
    }

    /** Row i of the long multiplication: the inner loop and the carry after it. */
    method AddRow(z0: seq<u32>, t: seq<u32>, i: nat) returns (z: seq<u32>)
      requires i < |t| && |z0| == |limbs| + |t|
      requires forall k | i + |limbs| <= k < |z0| :: z0[k] == 0
      requires Value(z0) == Value(limbs) * Value(t[..i])
      ensures |z| == |z0| && forall k | i + 1 + |limbs| <= k < |z| :: z[k] == 0
      ensures Value(z) == Value(limbs) * Value(t[..i + 1])
    {
      hide Value, RowSum;
      z := z0;
      var carry: u64 := 0;
      var j := 0;
      RowStart(z, limbs, t[i], i);
      while j < |limbs|
        invariant 0 <= j <= |limbs| && 0 <= carry < BASE
        invariant SameFrom(z, z0, i + j) && RowSum(z, z0, limbs, t[i], i, j, carry)
      {
        var d, carry' := ProductLimb(t[i], limbs[j], z[i + j], carry);
        RowStep(z, z0, limbs, t[i], i, j, carry, d, carry');
        z := z[i + j := d];
        carry := carry';
        j := j + 1;
      }
      RowDone(z, z0, limbs, t, i, carry);
      z := z[i + |limbs| := carry];
    }

    /** Divides by x and returns the remainder; the assert on the normal form never fails. */
    method Divide(x: u32) returns (r: u32)
      requires x > 0 && (Normal(limbs) || limbs == [0])
      modifies this
      ensures Value(limbs) * x + r == old(Value(limbs)) && r < x
      ensures Normal(limbs)
    {
      hide Value, Divided;
      ghost var s := limbs;
      var carry: u64 := 0;
      var i := |limbs|;
      DivideStart(limbs, x);
      while i > 0
        invariant 0 <= i <= |limbs| == |s| && 0 <= carry < x
        invariant forall k | 0 <= k < i :: limbs[k] == s[k]
        invariant Divided(limbs, s, i, x, carry)
      {
        var q, r' := DivideLimb(carry, limbs[i - 1], x);
        DivideStep(limbs, s, i, x, carry, q, r');
        limbs := limbs[i - 1 := q];
        carry := r';
        i := i - 1;
      }
      DivideDone(limbs, s, x, carry);
      if limbs != [] && limbs[|limbs| - 1] == 0 {
        DropTopZero(limbs);
        limbs := limbs[..|limbs| - 1];
      }
      assert IsNormal();
      return carry;
    }

    /** Raises to the n-th power by squaring. */
    method Power(n: u32)
      requires Normal(limbs)
      modifies this
      ensures Value(limbs) == Pow(old(Value(limbs)), n) && Normal(limbs)
    {
      if n == 0 {
        Assign(1);
      } else if n > 1 {
        ghost var v := Value(limbs);
        var result := new UnsignedInt(1);
        var k := n;
        while k != 0
          invariant 0 <= k <= n
          invariant Value(result.limbs) * Pow(Value(limbs), k) == Pow(v, n)
          invariant Normal(limbs) && Normal(result.limbs)
        {
          PowerStep(Value(result.limbs), Value(limbs), k);
          if k % 2 == 1 {
            result.Multiply(this);
          }
          Multiply(this);
          k := k / 2;
        }
        Swap(result);
      } else {
        assert Pow(Value(limbs), 1) == Value(limbs) * Pow(Value(limbs), 0);
      }
    }

    /** The decimal numeral; the limb vector of the copy never runs empty. */
    method ToDec() returns (result: string)
      requires Normal(limbs) || limbs == [0]
      ensures result == Numeral(10, Value(limbs))
    {
      if limbs == [] {
        return "0";
      }
      hide Value, Numeral;
      ghost var n := Value(limbs);
      var copy := new UnsignedInt.Copy(this);
      result := [];
      assert Numeral(10, n) == Numeral(10, n) + Reversed(result);
      while |copy.limbs| > 1
        invariant limbs == old(limbs)
        invariant copy.limbs != [] && (Normal(copy.limbs) || copy.limbs == [0])
        invariant Numeral(10, n) == Numeral(10, Value(copy.limbs)) + Reversed(result)
        decreases Value(copy.limbs)
      {
        LongIsLarge(copy.limbs);
        ghost var v := Value(copy.limbs);
        var x := copy.Divide(1000000000);
        StillPositive(copy.limbs, v, x);
        result := EmitDigits(10, 9, x, result, Value(copy.limbs), n);
      }
      ghost var v := Value(copy.limbs);
      SingleLimb(copy.limbs);
      result := EmitTop(10, copy.limbs[0], result, n);
      result := Reversed(result);
    }

    /** The hexadecimal numeral: eight digits for every limb but the top one. */
    method ToHex() returns (result: string)
      requires Normal(limbs)
      ensures result == Numeral(16, Value(limbs))
    {
      if limbs == [] {
        return "0";
      }
      hide Value, Numeral;
      ghost var n := Value(limbs);
      result := [];
      assert limbs[0..] == limbs;
      assert Numeral(16, n) == Numeral(16, n) + Reversed(result);
      for i := 0 to |limbs| - 1
        invariant Numeral(16, n) == Numeral(16, Value(limbs[i..])) + Reversed(result)
      {
        SuffixPositive(limbs, i);
        result := EmitDigits(16, 8, limbs[i], result, Value(limbs[i + 1..]), n);
      }
      SingleLimb(limbs[|limbs| - 1..]);
      result := EmitTop(16, limbs[|limbs| - 1], result, n);
      result := Reversed(result);
    }

    /** Reads a decimal numeral, nine digits at a time. */
    method ParseDec(str: string)
      requires limbs == []
      modifies this
      ensures IsNumeral(10, str) ==> ParsedDec(str, limbs)
    {
      ghost var valid := IsNumeral(10, str);
      hide Value, NumeralValue, IsNumeral, Normal, ParsedDec;
      var first := |str| % 9;
      ParsedNothing(str);
      if first != 0 {
        var seg := ParseSegment(str[..first]);
        AddSmall(seg);
        if valid {
          SegmentStep(str, 0, first, [], [], limbs, seg);
        }
      }
      var i := first;
      ghost var k := |str| / 9;
      while i < |str|
        invariant 0 <= k && |str| == i + 9 * k
        invariant valid ==> IsNumeral(10, str[..i]) && ParsedDec(str[..i], limbs)
      {
        ReadSegment(str, i, valid);
        i := i + 9;
        k := k - 1;
      }
      assert str[..i] == str;
    }

    /** Nine more digits. */
    method ReadSegment(str: string, i: nat, ghost valid: bool)
      requires i + 9 <= |str|
      requires valid ==> IsNumeral(10, str) && IsNumeral(10, str[..i]) && ParsedDec(str[..i], limbs)
      modifies this
      ensures valid ==> IsNumeral(10, str[..i + 9]) && ParsedDec(str[..i + 9], limbs)
    {
      hide Value, NumeralValue, IsNumeral, Normal, ParsedDec;
      var seg := ParseSegment(str[i..i + 9]);
      ghost var s := limbs;
      MultiplySmall(1000000000);
      ghost var t := limbs;
      AddSmall(seg);
      if valid {
        SegmentStep(str, i, i + 9, s, t, limbs, seg);
      }
    }

    /** Reads a hexadecimal numeral from its end, eight digits to the limb. */
    method ParseHex(str: string)
      requires limbs == []
      modifies this
      ensures IsNumeral(16, str) ==> ParsedHex(str, limbs)
    {
      ghost var valid := IsNumeral(16, str);
      HexNothing(str);
      hide Value, NumeralValue, IsNumeral, HexPart;
      for i := 0 to |str|
        invariant |limbs| == (i + 7) / 8
        invariant valid ==> IsNumeral(16, str[|str| - i..]) && HexPart(str[|str| - i..], limbs)
      {
        ReadHexDigit(str, i, valid);
      }
      if valid {
        HexDone(str, limbs);
      }
      if |limbs| == 1 && limbs[0] == 0 {
        limbs := [];
      }
    }

    /** The digit at place i from the end. */
    method ReadHexDigit(str: string, i: nat, ghost valid: bool)
      requires i < |str| && |limbs| == (i + 7) / 8
      requires valid ==> IsNumeral(16, str) && IsNumeral(16, str[|str| - i..]) && HexPart(str[|str| - i..], limbs)
      modifies this
      ensures |limbs| == (i + 8) / 8
      ensures valid ==> IsNumeral(16, str[|str| - (i + 1)..]) && HexPart(str[|str| - (i + 1)..], limbs)
    {
      hide Value, NumeralValue, IsNumeral, HexPart, FromHex, Or, Shl;
      ghost var s := limbs;
      if i % 8 == 0 {
        limbs := limbs + [0];
      }
      var digit: u32 := FromHex(str[|str| - i - 1]);
      var shift := 4 * (i % 8);
      ghost var o := limbs;
      limbs := limbs[|limbs| - 1 := Or(limbs[|limbs| - 1], Shl(digit, shift))];
      if valid {
        HexStep(str, i, s, o, limbs);
      }
    }
  }

  /** The low limb of a sum, and whether it exceeds the mask. */
  method SplitSum(sum: u64) returns (d: u32, carry: u64)
    requires sum <= 2 * MASK + 1
    ensures sum == d + BASE * carry && carry <= 1
  {
    d := sum % BASE;
    carry := if sum > MASK then 1 else 0;
  }

  /** The low limb of a difference in wrapping 64-bit arithmetic, and whether it wrapped. */
  method SplitDifference(x: int) returns (d: u32, borrow: u64)
    requires -BASE <= x < BASE
    ensures x == d - BASE * borrow && borrow <= 1
  {
    var sum: u64 := Wrap(x);
    d := sum % BASE;
    borrow := if sum > MASK then 1 else 0;
  }

  /** Unsigned 64-bit arithmetic wraps round. */
  function Wrap(x: int): (r: u64)
    requires -0x1_0000_0000_0000_0000 <= x < 0x1_0000_0000_0000_0000
    ensures r == x || r == x + 0x1_0000_0000_0000_0000
  {
    if x < 0 then x + 0x1_0000_0000_0000_0000 else x
  }

  lemma FirstLimb(s: seq<u32>, x: u32, d: u32, c: int)
    requires s != [] && s[0] + x == d + BASE * c
    ensures Sum(s[0 := d], s, 1, x, c)
  {
    var z := s[0 := d];
    assert z[..1] == [d] && s[..1] == [s[0]];
    WeightNext(0);
  }

  /** What is left of a carry after its propagation becomes a new limb. */
  lemma CarryOut(z: seq<u32>, s: seq<u32>, i: nat, v: int, c: int)
    requires i <= |s| && SameFrom(z, s, i) && 0 <= c <= 1 && (i == |s| || c == 0) && Sum(z, s, i, v, c)
    ensures c == 0 ==> Value(z) == Value(s) + v
    ensures c != 0 ==> Value(z + [c]) == Value(s) + v && Normal(z + [c])
    ensures v >= 0 && s != [] && Normal(s) && c == 0 ==> Normal(z)
  {
    if c == 0 {
      SumDone(z, s, i, v);
      hide Value, Weight;
      if v >= 0 && s != [] && Normal(s) {
        NormalBound(s);
        NormalIff(z);
      }
    } else {
      assert z[..i] == z && s[..i] == s;
      ValueSnoc(z, c);
    }
  }

  /** Resizing with zeros keeps the value. */
  lemma Padded(s: seq<u32>, z: seq<u32>)
    requires s <= z && forall k | |s| <= k < |z| :: z[k] == 0
    ensures Value(z) == Value(s)
  {
    assert z[..|s|] == s;
    ValueZerosAbove(z, |s|);
  }

  /** The sum of normal numbers is normal: its top limb, or the carry, is not zero. */
  lemma SumNormal(a: seq<u32>, t: seq<u32>, z: seq<u32>, c: int)
    requires |z| == (if |a| < |t| then |t| else |a|)
    requires c == 0 ==> Value(z) == Value(a) + Value(t)
    ensures Normal(a) && Normal(t) && c == 0 ==> Normal(z)
  {
    hide Value, Weight;
    if Normal(a) && Normal(t) && c == 0 && z != [] {
      if |a| < |t| {
        NormalBound(t);
      } else {
        NormalBound(a);
      }
      NormalIff(z);
    }
  }

  /** No borrow is left over when the subtrahend is not larger. */
  lemma BorrowOut(z: seq<u32>, s: seq<u32>, t: seq<u32>, i: nat, c: int)
    requires i <= |s| && SameFrom(z, s, i) && 0 <= c <= 1 && (i == |s| || c == 0)
    requires Sum(z, s, i, -1 * Value(t), -c) && Value(t) <= Value(s)
    ensures c == 0 && Value(z) == Value(s) - Value(t)
  {
    hide Value, Sum, Weight;
    if c == 0 {
      SumDone(z, s, i, -1 * Value(t));
    } else {
      assert c == 1 && i == |s|;
      BorrowTooLarge(z, s, t);
    }
  }

  lemma BorrowTooLarge(z: seq<u32>, s: seq<u32>, t: seq<u32>)
    requires |z| == |s| && Value(t) <= Value(s)
    ensures !Sum(z, s, |s|, -1 * Value(t), -1)
  {
    var w: int := Weight(|s|);
    assert z[..|z|] == z && s[..|s|] == s && Shifted(-1, |s|) == -1 * w;
    ValueBound(z);
    hide Value, Weight;
  }

  /** Digit and carry of a product of limbs with two more limbs added, in 64 bits. */
  method ProductLimb(x: u32, y: u32, z: u32, c: u64) returns (d: u32, c': u64)
    requires c < BASE
    ensures x * y + z + c == d + BASE * c' && c' < BASE
    ensures z == 0 && c < y ==> c' < y
  {
    ProductFits(x, y, z, c);
    var prod: u64 := x * y + z + c;
    d := prod % BASE;
    c' := prod / 0x10000 / 0x10000;
  }

  /** Quotient and remainder of two limbs by one, in 64 bits. */
  method DivideLimb(c: u64, l: u32, x: u32) returns (q: u32, r: u64)
    requires c < x
    ensures IsQuotient(c, l, x, q, r)
  {
    QuotientFits(c, l, x);
    var prod: u64 := c * BASE;
    prod := prod + l;
    q := prod / x;
    r := prod % x;
  }

  lemma ProductFits(x: u32, y: u32, z: u32, c: int)
    requires 0 <= c < BASE
    ensures 0 <= x * y + z + c < BASE * BASE
    ensures z == 0 && c < y ==> (x * y + c) / 0x10000 / 0x10000 < y
  {
    ProductBelow(x, y);
    var p := x * y;
    if z == 0 && c < y {
      DivBelow(p + c, y);
    }
  }

  lemma ProductBelow(x: u32, y: u32)
    ensures 0 <= x * y <= MASK * MASK && x * y <= y * MASK
  {
    MulMono(y, x, MASK);
    MulMono(MASK, y, MASK);
  }

  lemma DivBelow(p: int, y: int)
    requires 0 <= p < y * BASE
    ensures p / 0x10000 / 0x10000 < y
  {
    assert p / 0x10000 / 0x10000 == p / BASE;
  }

  lemma DivideStart(s: seq<u32>, x: int)
    ensures Divided(s, s, |s|, x, 0)
  {
    assert s[|s|..] == [];
  }

  lemma DivideDone(z: seq<u32>, s: seq<u32>, x: u32, r: int)
    requires |z| == |s| && 0 <= r < x && Divided(z, s, 0, x, r) && (Normal(s) || s == [0])
    ensures Value(z) * x + r == Value(s)
    ensures z != [] && z[|z| - 1] == 0 ==> Normal(z[..|z| - 1])
  {
    assert z[0..] == z && s[0..] == s;
    if Normal(s) && s != [] {
      QuotientNormal(s, z, x, r);
    }
  }

  lemma ScaleNormal(s: seq<u32>, z: seq<u32>, x: int, c: int)
    requires |z| == |s| && 0 < x < BASE && 0 <= c < BASE && Scaled(z, s, |s|, x, c)
    ensures c == 0 ==> Value(z) == Value(s) * x
    ensures c != 0 ==> Value(z + [c]) == Value(s) * x && Normal(z + [c])
    ensures Normal(s) && c == 0 ==> Normal(z)
  {
    assert z[..|z|] == z && s[..|s|] == s;
    if c != 0 {
      ValueSnoc(z, c);
    } else if Normal(s) && s != [] {
      NormalBound(s);
      MulMono(Value(s), 1, x);
      NormalIff(z);
    }
  }

  /** The product of normal numbers has at most one zero limb on top. */
  lemma ProductNormal(s: seq<u32>, t: seq<u32>, z: seq<u32>)
    requires s != [] && t != [] && |z| == |s| + |t| && Value(z) == Value(s) * Value(t)
    ensures Normal(s) && Normal(t) && z[|z| - 1] == 0 ==> Normal(z[..|z| - 1])
  {
    hide Value, Weight;
    if Normal(s) && Normal(t) && z[|z| - 1] == 0 {
      NormalBound(s);
      NormalBound(t);
      ProductMono(Weight(|s| - 1), Value(s), Weight(|t| - 1), Value(t));
      WeightAdd(|s| - 1, |t| - 1);
      DropTopZero(z);
      NormalIff(z[..|z| - 1]);
    }
  }

  lemma ProductMono(x: nat, x': nat, y: nat, y': nat)
    requires x <= x' && y <= y'
    ensures x * y <= x' * y'
  {
    MulMono(x, y, y');
    MulMono(y', x, x');
  }

  lemma QuotientFits(c: int, l: u32, x: u32)
    requires 0 <= c < x
    ensures 0 <= c * BASE + l < BASE * BASE && 0 <= (c * BASE + l) / x < BASE
  {
  }

  /** One bit of the exponent. */
  lemma PowerStep(r: nat, b: nat, k: nat)
    requires k != 0
    ensures k % 2 == 1 ==> r * b * Pow(b * b, k / 2) == r * Pow(b, k)
    ensures k % 2 == 0 ==> r * Pow(b * b, k / 2) == r * Pow(b, k)
  {
    PowMul(b, b, k / 2);
    PowAdd(b, k / 2, k / 2);
    if k % 2 == 1 {
      assert Pow(b, k) == b * Pow(b, k - 1);
      MulAssoc(r, b, Pow(b * b, k / 2));
    }
  }

  // ----- printing -----

  /** Of the numeral of v, the digits of q * b^k + x are still to be written; the rest stands in
      rev, lowest digit first. */
  ghost predicate Pending(b: nat, v: nat, q: nat, k: nat, x: nat, rev: string)
    requires 2 <= b <= 16
  {
    Numeral(b, v) == Numeral(b, q * Pow(b, k) + x) + Reversed(rev)
  }

  lemma PendingStep(b: nat, v: nat, q: nat, k: nat, x: nat, rev: string)
    requires 2 <= b <= 16 && q > 0 && x < Pow(b, k + 1) && Pending(b, v, q, k + 1, x, rev)
    ensures 0 <= x / b < Pow(b, k) && 0 <= x % b < b && Pending(b, v, q, k, x / b, rev + [DigitOf(x % b)])
  {
    hide Numeral, DigitOf;
    EmitStep(b, q, k, x);
    DropDigit(x, b, Pow(b, k));
    EmitArithmetic(b, q, Pow(b, k), x);
    var c := DigitOf(x % b);
    ReversedSnoc(rev, c);
    var front := Numeral(b, q * Pow(b, k) + x / b);
    assert front + [c] + Reversed(rev) == front + ([c] + Reversed(rev));
  }

  /** Emits the low n digits of x, the lowest first. */
  method EmitDigits(b: nat, n: nat, x0: u32, rev0: string, ghost q: nat, ghost v: nat) returns (rev: string)
    requires 2 <= b <= 16 && q > 0 && x0 < Pow(b, n) && Pending(b, v, q, n, x0, rev0)
    ensures Numeral(b, v) == Numeral(b, q) + Reversed(rev)
  {
    rev := rev0;
    var x: nat := x0;
    for i := 0 to n
      invariant x < Pow(b, n - i) && Pending(b, v, q, n - i, x, rev)
    {
      hide Pending, DigitOf, Pow;
      PendingStep(b, v, q, n - i - 1, x, rev);
      var lsd := x % b;
      x := x / b;
      rev := rev + [DigitOf(lsd)];
    }
    assert q * Pow(b, 0) + x == q;
  }

  lemma DropDigit(x: nat, b: nat, p: nat)
    requires b > 0 && x < b * p
    ensures x / b < p
  {
    if x / b >= p {
      MulMono(b, p, x / b);
    }
  }

  /** Emits all digits of the top limb. */
  method EmitTop(b: nat, x0: u32, rev0: string, ghost v: nat) returns (rev: string)
    requires 2 <= b <= 16 && Numeral(b, v) == Numeral(b, x0) + Reversed(rev0)
    ensures Reversed(rev) == Numeral(b, v)
  {
    hide Numeral, DigitOf;
    rev := rev0;
    var x := x0;
    var more := true;
    while more
      invariant 0 <= x
      invariant if more then Numeral(b, v) == Numeral(b, x) + Reversed(rev) else Numeral(b, v) == Reversed(rev)
      decreases more, x
    {
      NumeralUnfold(b, x);
      var lsd := x % b;
      if x < b { DivUnique(x, b, 0, x); }
      ReversedSnoc(rev, DigitOf(lsd));
      x := x / b;
      rev := rev + [DigitOf(lsd)];
      more := x != 0;
    }
  }

  lemma LongIsLarge(s: seq<u32>)
    requires Normal(s) && |s| > 1
    ensures Value(s) >= BASE
  {
    NormalBound(s);
    PowMono(BASE, 1, |s| - 1);
    WeightNext(0);
  }

  /** A quotient of a number of two or more limbs by a billion is not zero. */
  lemma StillPositive(s: seq<u32>, v: nat, x: u32)
    requires v >= BASE && Value(s) * 1000000000 + x == v && x < 1000000000
    ensures Value(s) > 0 && s != [] && Value(s) < v && Pow(10, 9) == 1000000000
  {
    assert Pow(10, 9) == 1000000000;
  }

  lemma SingleLimb(s: seq<u32>)
    requires |s| == 1
    ensures Value(s) == s[0]
  {
  }

  lemma SuffixPositive(s: seq<u32>, i: nat)
    requires Normal(s) && i + 1 < |s|
    ensures Value(s[i + 1..]) > 0
    ensures Value(s[i..]) == Value(s[i + 1..]) * Pow(16, 8) + s[i] && Pow(16, 8) == BASE
  {
    assert Pow(16, 8) == BASE;
    assert s[i..][1..] == s[i + 1..];
    NormalBound(s[i + 1..]);
  }

  // ----- parsing -----

  /** What parseDec leaves: the value, in normal form except that a non-empty numeral of zero
      leaves the single limb 0. */
  ghost predicate ParsedDec(str: string, s: seq<u32>)
    requires IsNumeral(10, str)
  {
    && Value(s) == NumeralValue(10, str)
    && (if str == [] then s == [] else if NumeralValue(10, str) == 0 then s == [0] else Normal(s))
  }

  lemma ParsedNothing(str: string)
    ensures IsNumeral(10, []) && ParsedDec([], []) && str[..0] == []
    ensures Value([]) == 0 && Normal([])
  {
  }

  /** One segment: s is multiplied to t, and the segment is added to give u. */
  lemma SegmentStep(str: string, i: nat, j: nat, s: seq<u32>, t: seq<u32>, u: seq<u32>, seg: u32)
    requires IsNumeral(10, str) && i < j <= |str|
    requires IsNumeral(10, str[..i]) && ParsedDec(str[..i], s)
    requires (i == 0 && t == []) || (j == i + 9 && Value(t) == Value(s) * 1000000000)
    requires (Normal(s) ==> Normal(t)) && (s == [0] ==> t == [0])
    requires IsNumeral(10, str[i..j]) ==> seg == NumeralValue(10, str[i..j])
    requires Value(u) == Value(t) + seg
    requires (Normal(t) ==> (Normal(u) <==> t != [] || seg != 0)) && (t == [] || t == [0] ==> u == [seg])
    ensures IsNumeral(10, str[..j]) && ParsedDec(str[..j], u)
  {
    hide FromHex;
    assert IsNumeral(10, str[i..j]) && str[..j] == str[..i] + str[i..j];
    NumeralValueAppend(10, str[..i], str[i..j]);
    assert Pow(10, 9) == 1000000000;
    hide NumeralValue, IsNumeral;
    ShapeStep(t, u, seg);
  }

  lemma ShapeStep(t: seq<u32>, u: seq<u32>, seg: u32)
    requires Normal(t) || t == [0]
    requires Value(u) == Value(t) + seg
    requires (Normal(t) ==> (Normal(u) <==> t != [] || seg != 0)) && (t == [] || t == [0] ==> u == [seg])
    ensures if Value(u) == 0 then u == [0] else Normal(u)
  {
    if t == [] || t == [0] {
      SingleLimb(u);
    } else {
      NormalBound(t);
    }
  }

  lemma SegmentDigit(str: string, i: nat)
    requires IsNumeral(10, str) && i < |str| <= 9
    ensures IsNumeral(10, str[..i]) && IsNumeral(10, str[..i + 1]) && 0 <= FromDec(str[i]) < 10
    ensures NumeralValue(10, str[..i + 1]) == NumeralValue(10, str[..i]) * 10 + FromDec(str[i]) < 1000000000
  {
    assert FromDec(str[i]) == FromHex(str[i]);
    assert str[..i + 1] == str[..i] + [str[i]];
    ValueOfSnoc(10, str[..i], str[i]);
    NumeralValueBound(10, str[..i + 1]);
    PowMono(10, i + 1, 9);
    assert Pow(10, 9) == 1000000000;
  }

  lemma NoWrap(x: nat, d: nat)
    requires x * 10 + d < BASE
    ensures (x * 10 % BASE + d) % BASE == x * 10 + d
  {
  }

  /** 32-bit arithmetic wraps round; on digits it is exact. */
  method ParseSegment(str: string) returns (seg: u32)
    requires |str| <= 9
    ensures IsNumeral(10, str) ==> seg == NumeralValue(10, str)
  {
    seg := 0;
    for i := 0 to |str|
      invariant IsNumeral(10, str) ==> IsNumeral(10, str[..i]) && seg == NumeralValue(10, str[..i])
    {
      hide NumeralValue, IsNumeral, FromDec, FromHex;
      if IsNumeral(10, str) {
        SegmentDigit(str, i);
        NoWrap(seg, FromDec(str[i]));
      }
      seg := seg * 10 % BASE;
      seg := (seg + FromDec(str[i])) % BASE;
    }
    assert str[..|str|] == str;
  }

  // ----- bit operations on 32-bit words -----

  /** Bitwise or. */
  function Or(x: u32, y: u32): (r: u32) {
    WordSize();
    OrBits(x, y, 32)
  }

  lemma WordSize()
    ensures Pow(2, 32) == BASE
  {
    PowAdd(2, 16, 16);
    PowAdd(2, 8, 8);
    assert Pow(2, 8) == 256;
  }

  function OrBits(x: nat, y: nat, n: nat): (r: nat)
    requires x < Pow(2, n) && y < Pow(2, n)
    ensures r < Pow(2, n)
  {
    if n == 0 then 0
    else (if x % 2 == 1 || y % 2 == 1 then 1 else 0) + 2 * OrBits(x / 2, y / 2, n - 1)
  }

  /** Shift left, dropping what leaves the word. */
  function Shl(x: u32, k: nat): (r: u32) { x * Pow(2, k) % BASE }

  lemma {:induction false} OrZero(y: nat, n: nat)
    requires y < Pow(2, n)
    ensures 0 < Pow(2, n) && OrBits(0, y, n) == y
  {
    PowPos(2, n);
    if n != 0 {
      OrZero(y / 2, n - 1);
    }
  }

  /** Words without a common bit: or is plus. */
  lemma {:induction false} OrDisjoint(x: nat, y: nat, k: nat, n: nat)
    requires k <= n && x < Pow(2, k) && y * Pow(2, k) < Pow(2, n)
    ensures x < Pow(2, n) && OrBits(x, y * Pow(2, k), n) == x + y * Pow(2, k)
    decreases k
  {
    hide Pow, OrBits;
    PowMono(2, k, n);
    if k == 0 {
      PowOfZero(2);
      OrZero(y, n);
    } else {
      var z := y * Pow(2, k - 1);
      ShiftedOnce(y, k);
      Pow2Step(k);
      Pow2Step(n);
      OrDisjoint(x / 2, y, k - 1, n - 1);
      OrHalves(x, z, n);
    }
  }

  lemma PowOfZero(b: nat)
    ensures Pow(b, 0) == 1
  {
  }

  lemma Pow2Step(n: nat)
    requires n > 0
    ensures Pow(2, n) == 2 * Pow(2, n - 1)
  {
  }

  lemma ShiftedOnce(y: nat, k: nat)
    requires k > 0
    ensures y * Pow(2, k) == 2 * (y * Pow(2, k - 1))
  {
    Pow2Step(k);
    MulAssoc(2, y, Pow(2, k - 1));
  }

  lemma OrHalves(x: nat, z: nat, n: nat)
    requires n > 0 && x < Pow(2, n) && 2 * z < Pow(2, n)
    ensures OrBits(x, 2 * z, n) == x % 2 + 2 * OrBits(x / 2, z, n - 1)
  {
    assert 2 * z / 2 == z && 2 * z % 2 == 0;
  }

  // ----- hexadecimal -----

  lemma {:induction false} FourBits(k: nat)
    ensures Pow(2, 4 * k) == Pow(16, k)
  {
    if k != 0 {
      FourBits(k - 1);
      PowAdd(2, 4, 4 * (k - 1));
      assert Pow(2, 4) == 16;
    }
  }

  lemma {:induction false} WeightHex(q: nat)
    ensures Weight(q) == Pow(16, 8 * q)
  {
    if q != 0 {
      WeightHex(q - 1);
      PowAdd(16, 8, 8 * (q - 1));
      assert Pow(16, 8) == BASE;
    }
  }

  /** The digits read so far, and the room left in the top limb. */
  ghost predicate HexPart(t: string, s: seq<u32>)
    requires IsNumeral(16, t)
  {
    && |s| == (|t| + 7) / 8
    && Value(s) == NumeralValue(16, t)
    && (s != [] ==> s[|s| - 1] < Pow(16, |t| - 8 * (|s| - 1)))
  }

  /** What parseHex leaves: one limb for every eight digits, or none for a short zero. */
  ghost predicate ParsedHex(str: string, s: seq<u32>)
    requires IsNumeral(16, str)
  {
    && Value(s) == NumeralValue(16, str)
    && |s| == (if |str| <= 8 && NumeralValue(16, str) == 0 then 0 else (|str| + 7) / 8)
  }

  lemma HexDone(str: string, s: seq<u32>)
    requires IsNumeral(16, str) && IsNumeral(16, str[|str| - |str|..]) && HexPart(str[|str| - |str|..], s)
    ensures ParsedHex(str, if |s| == 1 && s[0] == 0 then [] else s)
  {
    hide NumeralValue, FromHex;
    assert str[|str| - |str|..] == str;
    if |s| == 1 {
      SingleLimb(s);
    }
  }

  lemma HexNothing(str: string)
    ensures str[|str|..] == [] && IsNumeral(16, []) && HexPart([], [])
  {
  }

  /** Writing a digit into the free bits of the top limb adds it at its place. */
  lemma PutDigit(x: u32, d: nat, k: nat)
    requires k < 8 && d < 16 && x < Pow(16, k)
    ensures Or(x, Shl(d, 4 * k)) == x + d * Pow(16, k) < Pow(16, k + 1)
  {
    WordSize();
    DigitBound(d, k, x);
    FourBits(k);
    hide Pow, OrBits;
    assert Shl(d, 4 * k) == d * Pow(16, k);
    OrDisjoint(x, d, 4 * k, 32);
  }

  lemma DigitBound(d: nat, k: nat, x: nat)
    requires k < 8 && d < 16 && x < Pow(16, k)
    ensures 0 <= d * Pow(16, k) < BASE && x + d * Pow(16, k) < Pow(16, k + 1)
  {
    PowMono(16, k + 1, 8);
    assert Pow(16, 8) == BASE;
    DigitFits(d, Pow(16, k), x);
  }

  lemma DigitFits(d: nat, p: nat, x: nat)
    requires d < 16 && x < p
    ensures 0 <= d * p < 16 * p && x + d * p < 16 * p
  {
    MulMono(p, d + 1, 16);
    Distribute(p, d, 1);
  }

  lemma TopDigit(t: string, c: char)
    requires IsNumeral(16, t) && 0 <= FromHex(c) < 16
    ensures IsNumeral(16, [c] + t)
    ensures NumeralValue(16, [c] + t) == FromHex(c) * Pow(16, |t|) + NumeralValue(16, t)
  {
    hide FromHex, Pow, NumeralValue, IsNumeral;
    OneDigit(16, c);
    NumeralValueAppend(16, [c], t);
  }

  lemma TopLimb(o: seq<u32>, x: u32)
    requires o != []
    ensures Value(o[|o| - 1 := x]) == Value(o) + Weight(|o| - 1) * (x - o[|o| - 1])
  {
    var n := |o| - 1;
    var l := o[n := x];
    assert l[..n] == o[..n] && l[..n + 1] == l && o[..n + 1] == o;
    ValueTake(o, n);
    ValueTake(l, n);
    Distribute(Weight(n), o[n], x - o[n]);
  }

  lemma HexStep(str: string, i: nat, s: seq<u32>, o: seq<u32>, l: seq<u32>)
    requires IsNumeral(16, str) && i < |str|
    requires IsNumeral(16, str[|str| - i..]) && HexPart(str[|str| - i..], s)
    requires o == (if i % 8 == 0 then s + [0] else s) && o != []
    requires l == o[|o| - 1 := Or(o[|o| - 1], Shl(FromHex(str[|str| - i - 1]), 4 * (i % 8)))]
    ensures IsNumeral(16, str[|str| - (i + 1)..]) && HexPart(str[|str| - (i + 1)..], l)
  {
    hide Or, Shl, FromHex, Value, NumeralValue;
    var t, c := str[|str| - i..], str[|str| - i - 1];
    assert str[|str| - (i + 1)..] == [c] + t;
    if i % 8 == 0 {
      ValueSnoc(s, 0);
      assert Pow(16, 0) == 1;
    }
    hide IsNumeral;
    TopDigit(t, c);
    HexLimb(t, s, o, l, i, FromHex(c), NumeralValue(16, [c] + t));
  }

  lemma HexLimb(t: string, s: seq<u32>, o: seq<u32>, l: seq<u32>, i: nat, d: nat, v: int)
    requires i == |t| && d < 16 && |o| == i / 8 + 1 && o[i / 8] < Pow(16, i % 8)
    requires l == o[|o| - 1 := Or(o[|o| - 1], Shl(d, 4 * (i % 8)))]
    requires v == d * Pow(16, i) + Value(o)
    ensures |l| == (i + 1 + 7) / 8 && Value(l) == v && l[|l| - 1] < Pow(16, i + 1 - 8 * (|l| - 1))
  {
    hide Or, Shl, Value, Pow;
    var q, k := i / 8, i % 8;
    PutDigit(o[q], d, k);
    TopLimb(o, l[q]);
    DigitWeight(q, k, d);
  }

  lemma DigitWeight(q: nat, k: nat, d: nat)
    ensures Weight(q) * (d * Pow(16, k)) == d * Pow(16, 8 * q + k)
  {
    WeightHex(q);
    PowAdd(16, 8 * q, k);
    MulAssoc(d, Weight(q), Pow(16, k));
    MulAssoc(Weight(q), d, Pow(16, k));
  }

  /** A parsed numeral is in normal form exactly when its leading group of digits is not zero. */
  lemma ParsedHexNormal(str: string, s: seq<u32>)
    requires IsNumeral(16, str) && ParsedHex(str, s)
    ensures Normal(s) <==> |str| <= 8 || NumeralValue(16, str) >= Pow(16, 8 * ((|str| + 7) / 8 - 1))
  {
    if s != [] {
      NormalIff(s);
      WeightHex(|s| - 1);
    }
  }

  lemma HexLength(s: seq<u32>)
    requires Normal(s) && s != []
    ensures (|Numeral(16, Value(s))| + 7) / 8 == |s| && Value(s) > 0
  {
    var k := |s|;
    NormalBound(s);
    ValueBound(s);
    WeightHex(k - 1);
    WeightHex(k);
    NumeralLength(16, Value(s));
    hide Value, Weight, Numeral, Pow;
    var l := |Numeral(16, Value(s))|;
    LengthUnique(16, Value(s), 8 * (k - 1), l);
    LengthUnique(16, Value(s), l - 1, 8 * k);
  }

  /** Printing a normal number in hexadecimal and parsing it gives back the same limbs. */
  lemma HexRoundTrip(s: seq<u32>, t: seq<u32>)
    requires Normal(s)
    requires IsNumeral(16, Numeral(16, Value(s))) && ParsedHex(Numeral(16, Value(s)), t)
    ensures t == s
  {
    NumeralRoundTrip(16, Value(s));
    hide Numeral, NumeralValue;
    if s != [] {
      HexLength(s);
      SameLength(s, t);
    } else {
      NumeralUnfold(16, 0);
    }
  }

  /** Printing in decimal and parsing keeps the value; the limbs too, unless the number is 0. */
  lemma DecRoundTrip(s: seq<u32>, t: seq<u32>)
    requires Normal(s)
    requires IsNumeral(10, Numeral(10, Value(s))) && ParsedDec(Numeral(10, Value(s)), t)
    ensures Value(t) == Value(s) && (t == s <==> s != [])
  {
    NumeralRoundTrip(10, Value(s));
    if s != [] {
      NormalBound(s);
      NormalUnique(s, t);
    }
  }
}
