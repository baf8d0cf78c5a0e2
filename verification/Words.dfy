/** 32-bit words as sets of bits. */
module Words {
  import opened Bits

  /** uint32_t */
  datatype Word = Word(bits: bv32)

  predicate Has(w: Word, i: nat)
    requires i < 32
  {
    Bit(w.bits, i)
  }

  function Or(v: Word, w: Word): (r: Word) { Word(v.bits | w.bits) }
  function Not(w: Word): (r: Word) { Word(!w.bits) }
  function Left(w: Word): (r: Word) { Word(w.bits << 1) }
  function Right(w: Word): (r: Word) { Word(w.bits >> 1) }

  /** 1 << i */
  function Single(i: nat): (r: Word)
    requires i < 32
  {
    Word(One(i))
  }

  /** (1 << n) - 1 */
  function LowBits(n: nat): (r: Word)
    requires n < 32
  {
    Word(One(n) - 1)
  }

  predicate Zero(w: Word) { w.bits == 0 }

  /** __builtin_ctz */
  function Lowest(w: Word): (i: nat)
    requires !Zero(w)
  {
    TrailingZeros(w.bits)
  }

  /** w & (w - 1) */
  function WithoutLowest(w: Word): (r: Word) { Word(w.bits & (w.bits - 1)) }

  predicate Union(x: bv32, y: bv32, r: bv32) { r == x | y }

  lemma OrBits(x: bv32, y: bv32, r: bv32, i: nat)
    requires i < 32 && Union(x, y, r)
    ensures Bit(r, i) <==> Bit(x, i) || Bit(y, i)
  {
    hide Bit, One;
    BitOr(x, y, i);
  }

  lemma OrIsUnion(v: Word, w: Word)
    ensures Union(v.bits, w.bits, Or(v, w).bits)
  {
  }

  lemma HasOr(v: Word, w: Word, i: nat)
    requires i < 32
    ensures Has(Or(v, w), i) <==> Has(v, i) || Has(w, i)
  {
    hide Bit, One, Union, Or;
    OrIsUnion(v, w);
    OrBits(v.bits, w.bits, Or(v, w).bits, i);
  }

  predicate Complement(x: bv32, r: bv32) { r == !x }

  lemma NotBits(x: bv32, r: bv32, i: nat)
    requires i < 32 && Complement(x, r)
    ensures Bit(r, i) <==> !Bit(x, i)
  {
    hide Bit, One;
    BitNot(x, i);
  }

  lemma NotIsComplement(w: Word)
    ensures Complement(w.bits, Not(w).bits)
  {
  }

  lemma HasNot(w: Word, i: nat)
    requires i < 32
    ensures Has(Not(w), i) <==> !Has(w, i)
  {
    hide Bit, One, Complement, Not;
    NotIsComplement(w);
    NotBits(w.bits, Not(w).bits, i);
  }

  predicate Doubled(x: bv32, r: bv32) { r == x << 1 }

  lemma LeftBits(x: bv32, r: bv32, i: nat)
    requires i < 32 && Doubled(x, r)
    ensures Bit(r, i) <==> i > 0 && Bit(x, i - 1)
  {
    hide Bit, One;
    BitLeft(x, i);
  }

  lemma LeftIsDoubled(w: Word)
    ensures Doubled(w.bits, Left(w).bits)
  {
  }

  lemma HasLeft(w: Word, i: nat)
    requires i < 32
    ensures Has(Left(w), i) <==> i > 0 && Has(w, i - 1)
  {
    hide Bit, One, Doubled, Left;
    LeftIsDoubled(w);
    LeftBits(w.bits, Left(w).bits, i);
  }

  predicate Halved(x: bv32, r: bv32) { r == x >> 1 }

  lemma RightBits(x: bv32, r: bv32, i: nat)
    requires i < 32 && Halved(x, r)
    ensures Bit(r, i) <==> i < 31 && Bit(x, i + 1)
  {
    hide Bit, One;
    BitRight(x, i);
  }

  lemma RightIsHalved(w: Word)
    ensures Halved(w.bits, Right(w).bits)
  {
  }

  lemma HasRight(w: Word, i: nat)
    requires i < 32
    ensures Has(Right(w), i) <==> i < 31 && Has(w, i + 1)
  {
    hide Bit, One, Halved, Right;
    RightIsHalved(w);
    RightBits(w.bits, Right(w).bits, i);
  }

  lemma HasSingle(c: nat, i: nat)
    requires c < 32 && i < 32
    ensures Has(Single(c), i) <==> i == c
  {
    hide Bit, One;
    BitOne(c, i);
  }

  lemma HasLowBits(n: nat, i: nat)
    requires n < 32 && i < 32
    ensures Has(LowBits(n), i) <==> i < n
  {
    hide Bit, One;
    BitBelow(n, i);
  }

  /** Lowest is the least bit of w, and WithoutLowest removes it and nothing else. */
  lemma HasLowest(w: Word, j: nat)
    requires !Zero(w) && j < 32
    ensures Lowest(w) < 32 && Has(w, Lowest(w)) && (j < Lowest(w) ==> !Has(w, j))
    ensures Has(WithoutLowest(w), j) <==> Has(w, j) && j != Lowest(w)
  {
    ClearLowest(w.bits, j);
  }

  lemma ZeroHasNone(w: Word)
    ensures Zero(w) <==> forall i: nat | i < 32 :: !Has(w, i)
  {
    if Zero(w) {
      forall i: nat | i < 32
        ensures !Has(w, i)
      {
        Ends(One(i));
      }
    } else {
      ClearLowest(w.bits, 0);
      assert Has(w, Lowest(w));
    }
  }
}
