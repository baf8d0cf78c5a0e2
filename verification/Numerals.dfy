/** Numerals: the canonical numeral of a number in a base, and the value of a numeral. */
module Numerals {
  import opened Numbers

  const DIGITS := "0123456789abcdef"

  function DigitOf(d: nat): (c: char)
    requires d < 16
  {
    DIGITS[d]
  }

  /** The value of a hexadecimal digit; upper case is read too, but never written. */
  function FromHex(c: char): (r: int)
    ensures 0 <= r < 0x1_0000_0000
  {
    if '0' <= c <= '9' then c as int - '0' as int
    else if 'a' <= c <= 'f' then c as int - 'a' as int + 10
    else if 'A' <= c <= 'F' then c as int - 'A' as int + 10
    else 0xFFFF_FFFF
  }

  function FromDec(c: char): (r: int)
    ensures 0 <= r < 0x1_0000_0000
  {
    if '0' <= c <= '9' then c as int - '0' as int else 0xFFFF_FFFF
  }

  lemma DigitRoundTrip(d: nat)
    requires d < 16
    ensures FromHex(DigitOf(d)) == d && (d < 10 ==> FromDec(DigitOf(d)) == d)
  {
    assert DIGITS[0] == '0' && DIGITS[1] == '1' && DIGITS[2] == '2' && DIGITS[3] == '3';
    assert DIGITS[4] == '4' && DIGITS[5] == '5' && DIGITS[6] == '6' && DIGITS[7] == '7';
    assert DIGITS[8] == '8' && DIGITS[9] == '9' && DIGITS[10] == 'a' && DIGITS[11] == 'b';
    assert DIGITS[12] == 'c' && DIGITS[13] == 'd' && DIGITS[14] == 'e' && DIGITS[15] == 'f';
  }

  /** The numeral of n in base b, without leading zeros. */
  function Numeral(b: nat, n: nat): (s: string)
    requires 2 <= b <= 16
    ensures |s| > 0
    decreases n
  {
    if n < b then [DigitOf(n)] else
      QuotientSmaller(n, b);
      Numeral(b, n / b) + [DigitOf(n % b)]
  }

  lemma QuotientSmaller(n: nat, b: nat)
    requires 2 <= b <= n
    ensures 0 < n / b < n && 0 <= n % b < b && n / b * b + n % b == n
  {
    var q, r := n / b, n % b;
    assert n == q * b + r;
    MulMono(q, 2, b);
  }

  predicate IsNumeral(b: nat, s: string) {
    forall i | 0 <= i < |s| :: 0 <= FromHex(s[i]) < b
  }

  /** The number that a string of digits denotes; the empty string denotes 0. */
  function NumeralValue(b: nat, s: string): (n: nat)
    requires IsNumeral(b, s)
  {
    if s == [] then 0 else NumeralValue(b, s[..|s| - 1]) * b + FromHex(s[|s| - 1])
  }

  lemma ValueOfSnoc(b: nat, s: string, c: char)
    requires IsNumeral(b, s) && 0 <= FromHex(c) < b
    ensures IsNumeral(b, s + [c]) && NumeralValue(b, s + [c]) == NumeralValue(b, s) * b + FromHex(c)
  {
    hide FromHex;
    assert (s + [c])[..|s + [c]| - 1] == s;
  }

  lemma OneDigit(b: nat, c: char)
    requires 0 <= FromHex(c) < b
    ensures IsNumeral(b, [c]) && NumeralValue(b, [c]) == FromHex(c)
  {
    hide FromHex;
    assert [c][..0] == [];
  }

  lemma NumeralUnfold(b: nat, n: nat)
    requires 2 <= b <= 16
    ensures n < b ==> Numeral(b, n) == [] + [DigitOf(n)]
    ensures n >= b ==> 0 < n / b < n && 0 <= n % b < b && n / b * b + n % b == n
                       && Numeral(b, n) == Numeral(b, n / b) + [DigitOf(n % b)]
  {
    if n >= b {
      QuotientSmaller(n, b);
    }
  }

  /** Reading back what was written gives the same number. */
  lemma {:induction false} NumeralRoundTrip(b: nat, n: nat)
    requires 2 <= b <= 16
    ensures IsNumeral(b, Numeral(b, n)) && NumeralValue(b, Numeral(b, n)) == n
    decreases n
  {
    hide FromHex, DigitOf, Numeral, NumeralValue, IsNumeral;
    NumeralUnfold(b, n);
    if n < b {
      DigitRoundTrip(n);
      assert Numeral(b, n) == [DigitOf(n)];
      OneDigit(b, DigitOf(n));
    } else {
      var q, d := n / b, n % b;
      NumeralRoundTrip(b, q);
      DigitRoundTrip(d);
      ValueOfSnoc(b, Numeral(b, q), DigitOf(d));
    }
  }

  /** One more digit at the end. */
  lemma NumeralSnoc(b: nat, q: nat, d: nat)
    requires 2 <= b <= 16 && q > 0 && d < b
    ensures Numeral(b, q * b + d) == Numeral(b, q) + [DigitOf(d)]
  {
    MulMono(b, 1, q);
    DivUnique(q * b + d, b, q, d);
  }

  lemma {:induction false} NumeralValueAppend(b: nat, s: string, t: string)
    requires IsNumeral(b, s) && IsNumeral(b, t)
    ensures IsNumeral(b, s + t)
    ensures NumeralValue(b, s + t) == NumeralValue(b, s) * Pow(b, |t|) + NumeralValue(b, t)
  {
    hide FromHex;
    if t == [] {
      assert s + t == s;
    } else {
      var n := |t| - 1;
      var t', c := t[..n], t[n];
      assert s + t == s + t' + [c] && t == t' + [c];
      NumeralValueAppend(b, s, t');
      ValueOfSnoc(b, s + t', c);
      ValueOfSnoc(b, t', c);
      assert Pow(b, |t|) == b * Pow(b, n);
      hide NumeralValue, IsNumeral, Pow;
      AppendArithmetic(NumeralValue(b, s), Pow(b, n), NumeralValue(b, t'), b, FromHex(c));
    }
  }

  lemma AppendArithmetic(x: int, p: int, y: int, b: int, d: int)
    ensures (x * p + y) * b + d == x * (b * p) + (y * b + d)
  {
    Distribute(b, x * p, y);
    MulAssoc(x, p, b);
    assert b * p == p * b;
  }

  lemma {:induction false} NumeralValueBound(b: nat, s: string)
    requires b > 0 && IsNumeral(b, s)
    ensures NumeralValue(b, s) < Pow(b, |s|)
  {
    if s != [] {
      var n := |s| - 1;
      NumeralValueBound(b, s[..n]);
      MulMono(b, NumeralValue(b, s[..n]) + 1, Pow(b, n));
      Distribute(b, NumeralValue(b, s[..n]), 1);
    }
  }

  /** std::reverse */
  function Reversed<T>(s: seq<T>): (r: seq<T>)
    ensures |r| == |s| && forall i | 0 <= i < |s| :: r[i] == s[|s| - 1 - i]
  {
    seq(|s|, i requires 0 <= i < |s| => s[|s| - 1 - i])
  }

  lemma ReversedSnoc<T>(s: seq<T>, x: T)
    ensures Reversed(s + [x]) == [x] + Reversed(s)
  {
  }

  /** The digits of x below a number q > 0 that has been shifted up by k + 1 places. */
  lemma EmitStep(b: nat, q: nat, k: nat, x: nat)
    requires 2 <= b <= 16 && q > 0
    ensures Numeral(b, q * Pow(b, k + 1) + x) == Numeral(b, q * Pow(b, k) + x / b) + [DigitOf(x % b)]
  {
    hide Numeral, DigitOf;
    var p := Pow(b, k);
    PowPos(b, k);
    MulMono(q, 1, p);
    EmitArithmetic(b, q, p, x);
    NumeralSnoc(b, q * p + x / b, x % b);
  }

  lemma EmitArithmetic(b: nat, q: nat, p: nat, x: nat)
    requires b > 0
    ensures q * (b * p) + x == (q * p + x / b) * b + x % b && 0 <= x / b && 0 <= x % b < b
  {
    var d, r := x / b, x % b;
    assert x == d * b + r;
    MulAssoc(q, p, b);
    assert b * p == p * b;
    Distribute(b, q * p, d);
  }

  /** The length of a numeral is the number of places the number needs. */
  lemma {:induction false} NumeralLength(b: nat, n: nat)
    requires 2 <= b <= 16 && n > 0
    ensures Pow(b, |Numeral(b, n)| - 1) <= n < Pow(b, |Numeral(b, n)|)
    decreases n
  {
    hide DigitOf;
    NumeralUnfold(b, n);
    if n < b {
      assert Pow(b, 1) == b * Pow(b, 0);
    } else {
      var q, d := n / b, n % b;
      NumeralLength(b, q);
      hide Numeral;
      var l := |Numeral(b, q)|;
      LengthStep(b, q, d, l);
    }
  }

  lemma LengthStep(b: nat, q: nat, d: nat, l: nat)
    requires l > 0 && d < b && Pow(b, l - 1) <= q < Pow(b, l)
    ensures Pow(b, l) <= q * b + d < Pow(b, l + 1)
  {
    MulMono(b, Pow(b, l - 1), q);
    MulMono(b, q + 1, Pow(b, l));
    Distribute(b, q, 1);
  }

  /** Numbers in the same range of powers have numerals of the same length. */
  lemma LengthUnique(b: nat, n: nat, l: nat, m: nat)
    requires b >= 2 && Pow(b, l) <= n < Pow(b, m)
    ensures l < m
  {
    if m <= l {
      PowMono(b, m, l);
    }
  }

  /** No zero leads, and the digits are 0 to 9 and a to f. */
  lemma {:induction false} NumeralCanonical(b: nat, n: nat)
    requires 2 <= b <= 16
    ensures n > 0 ==> Numeral(b, n)[0] != '0'
    ensures n == 0 ==> Numeral(b, n) == "0"
    ensures forall i | 0 <= i < |Numeral(b, n)| :: '0' <= Numeral(b, n)[i] <= '9' || 'a' <= Numeral(b, n)[i] <= 'f'
    decreases n
  {
    hide Numeral, DigitOf;
    NumeralUnfold(b, n);
    if n < b {
      DigitChar(n);
    } else {
      NumeralCanonical(b, n / b);
      DigitChar(n % b);
    }
  }

  lemma DigitChar(d: nat)
    requires d < 16
    ensures var c := DigitOf(d); ('0' <= c <= '9' || 'a' <= c <= 'f') && (c == '0' <==> d == 0)
  {
    assert DIGITS[0] == '0' && DIGITS[1] == '1' && DIGITS[2] == '2' && DIGITS[3] == '3';
    assert DIGITS[4] == '4' && DIGITS[5] == '5' && DIGITS[6] == '6' && DIGITS[7] == '7';
    assert DIGITS[8] == '8' && DIGITS[9] == '9' && DIGITS[10] == 'a' && DIGITS[11] == 'b';
    assert DIGITS[12] == 'c' && DIGITS[13] == 'd' && DIGITS[14] == 'e' && DIGITS[15] == 'f';
  }

  /** The lower case of a letter. */
  function Lower(c: char): (l: char) {
    if 'A' <= c <= 'Z' then (c as int - 'A' as int + 'a' as int) as char else c
  }

  function LowerAll(s: string): (t: string)
    ensures |t| == |s|
  {
    seq(|s|, i requires 0 <= i < |s| => Lower(s[i]))
  }

  /** Upper case digits count like lower case ones. */
  lemma {:induction false} CaseDoesNotMatter(s: string)
    requires IsNumeral(16, s)
    ensures IsNumeral(16, LowerAll(s)) && NumeralValue(16, LowerAll(s)) == NumeralValue(16, s)
  {
    if s != [] {
      var n := |s| - 1;
      CaseDoesNotMatter(s[..n]);
      LowerDigit(s[n]);
      assert LowerAll(s) == LowerAll(s[..n]) + [Lower(s[n])];
      hide FromHex, Lower;
      ValueOfSnoc(16, LowerAll(s[..n]), Lower(s[n]));
    }
  }

  lemma LowerDigit(c: char)
    requires FromHex(c) < 16
    ensures FromHex(Lower(c)) == FromHex(c)
    ensures FromHex('A') == 10 && FromHex('F') == 15
  {
  }
}
