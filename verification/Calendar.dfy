/** Dates of the Gregorian calendar and their Julian day numbers. */
module Calendar {
  import opened Numbers

  /** Integer division of the C family: towards zero. */
  function Quotient(a: int, b: int): (q: int)
    requires b > 0
    ensures a >= 0 ==> q == a / b
  {
    if a >= 0 then a / b else -((-a) / b)
  }

  function Remainder(a: int, b: int): (r: int)
    requires b > 0
    ensures a >= 0 ==> r == a % b
  {
    a - b * Quotient(a, b)
  }

  /** Division drops the fraction, and the remainder has the sign of the dividend. */
  lemma QuotientTruncates(a: int, b: int)
    requires b > 0
    ensures a >= 0 ==> 0 <= Remainder(a, b) < b && Quotient(a, b) >= 0
    ensures a < 0 ==> -b < Remainder(a, b) <= 0 && Quotient(a, b) <= 0
    ensures a == b * Quotient(a, b) + Remainder(a, b)
  {
    if a >= 0 {
      Divided(a, b);
    } else {
      Divided(-a, b);
      Negated(b, (-a) / b);
    }
  }

  lemma Divided(n: nat, b: int)
    requires b > 0
    ensures n / b >= 0 && 0 <= n % b < b && b * (n / b) == n - n % b
  {
  }

  lemma Negated(b: int, q: int)
    ensures b * (-q) == -(b * q)
  {
  }

  datatype Date = Date(year: int, month: int, day: int)

  /** getJulianDayNumber */
  function JulianDay(d: Date): (n: int) {
    var a := Quotient(14 - d.month, 12);
    var y := d.year + 4800 - a;
    var m := d.month + 12 * a - 3;
    d.day + Quotient(153 * m + 2, 5) + y * 365 + Quotient(y, 4) - Quotient(y, 100) + Quotient(y, 400) - 32045
  }

  /** getYearMonthDay */
  function YearMonthDay(n: int): (d: Date) {
    var a := n + 32044;
    var b := Quotient(4 * a + 3, 146097);
    var c := a - Quotient(b * 146097, 4);
    var d := Quotient(4 * c + 3, 1461);
    var e := c - Quotient(1461 * d, 4);
    var m := Quotient(5 * e + 2, 153);
    Date(b * 100 + d - 4800 + Quotient(m, 10), m + 3 - 12 * Quotient(m, 10), e - Quotient(153 * m + 2, 5) + 1)
  }

  // ----- the calendar itself -----

  predicate IsLeap(year: int) { year % 4 == 0 && (year % 100 != 0 || year % 400 == 0) }

  function DaysIn(year: int, month: int): (k: nat) {
    if month == 2 then (if IsLeap(year) then 29 else 28)
    else if month in {4, 6, 9, 11} then 30
    else 31
  }

  predicate IsDate(d: Date) { 1 <= d.month <= 12 && 1 <= d.day <= DaysIn(d.year, d.month) }

  /** On or after 1 March -4800. */
  predicate InRange(d: Date) { d.year > -4800 || (d.year == -4800 && d.month >= 3) }

  function NextDay(d: Date): (e: Date)
    requires IsDate(d)
    ensures IsDate(e)
  {
    if d.day < DaysIn(d.year, d.month) then Date(d.year, d.month, d.day + 1)
    else if d.month < 12 then Date(d.year, d.month + 1, 1)
    else Date(d.year + 1, 1, 1)
  }

  // ----- years that begin in March -----

  /** The days before year y, counting years from March. */
  function YearStart(y: nat): (s: nat) { 365 * y + y / 4 - y / 100 + y / 400 }

  /** The days before month m (0 is March) of such a year. */
  function MonthStart(m: nat): (s: nat) { (153 * m + 2) / 5 }

  function YearOf(d: Date): (y: int) { if d.month >= 3 then d.year + 4800 else d.year + 4799 }

  function MonthOf(d: Date): (m: int) { if d.month >= 3 then d.month - 3 else d.month + 9 }

  lemma DayNumberInMarchYears(d: Date)
    requires 1 <= d.month <= 12 && InRange(d)
    ensures YearOf(d) >= 0 && 0 <= MonthOf(d) < 12
    ensures JulianDay(d) == YearStart(YearOf(d)) + MonthStart(MonthOf(d)) + d.day - 32045
  {
    assert (14 - d.month) / 12 == if d.month >= 3 then 0 else 1;
  }

  /** A year from March has the leap day of the calendar year it ends in. */
  lemma YearLength(y: nat)
    ensures YearStart(y + 1) == YearStart(y) + (if IsLeap(y + 1 - 4800) then 366 else 365)
  {
    DivStep(y, 4);
    DivStep(y, 100);
    DivStep(y, 400);
    LeapShift(y + 1);
  }

  lemma DivStep(y: nat, k: nat)
    requires k > 1
    ensures (y + 1) / k == y / k + (if (y + 1) % k == 0 then 1 else 0)
  {
    var q, r := y / k, y % k;
    assert y == q * k + r;
    if r + 1 == k {
      assert (q + 1) * k == q * k + k;
      DivUnique(y + 1, k, q + 1, 0);
    } else {
      DivUnique(y + 1, k, q, r + 1);
    }
  }

  lemma ShiftMod(y: int, k: int, j: int)
    requires k > 0
    ensures (y - k * j) % k == y % k
  {
    var q := y / k;
    assert (q - j) * k == q * k - k * j;
    DivUnique(y - k * j, k, q - j, y % k);
  }

  lemma LeapShift(y: nat)
    ensures IsLeap(y - 4800) <==> y % 4 == 0 && (y % 100 != 0 || y % 400 == 0)
  {
    ShiftMod(y, 4, 1200);
    ShiftMod(y, 100, 48);
    ShiftMod(y, 400, 12);
  }

  lemma MonthLength(year: int, m: nat)
    requires m < 11
    ensures MonthStart(m + 1) == MonthStart(m) + DaysIn(year, if m < 10 then m + 3 else m - 9)
  {
  }

  // ----- one day later -----

  /** The next day has the next number. */
  lemma NextDayNumber(d: Date)
    requires IsDate(d) && InRange(d)
    ensures InRange(NextDay(d)) && JulianDay(NextDay(d)) == JulianDay(d) + 1
  {
    hide YearStart, JulianDay, IsLeap;
    var e := NextDay(d);
    DayNumberInMarchYears(d);
    DayNumberInMarchYears(e);
    var m := MonthOf(d);
    if m < 11 {
      MonthLength(d.year, m);
      hide MonthStart;
    } else {
      YearLength(YearOf(d));
      assert MonthStart(11) == 337;
    }
  }

  // ----- back from the number -----

  /** The days of the year before date d, counting from March. */
  lemma DayOfYear(d: Date)
    requires IsDate(d) && InRange(d)
    ensures var y, e := YearOf(d), MonthStart(MonthOf(d)) + d.day - 1;
            && JulianDay(d) == YearStart(y) + e - 32044 && 0 <= e
            && YearStart(y) + e < YearStart(y + 1)
            && (MonthOf(d) < 11 ==> e < MonthStart(MonthOf(d) + 1))
  {
    DayNumberInMarchYears(d);
    var y, m := YearOf(d), MonthOf(d);
    hide YearStart, JulianDay;
    YearLength(y);
    if m < 11 {
      MonthLength(d.year, m);
      MonthsFit(m + 1);
    } else {
      assert MonthStart(11) == 337;
    }
  }

  lemma MonthsFit(m: nat)
    requires m <= 11
    ensures MonthStart(m) <= 337
  {
  }

  /** Years within their century: 100 * b + d. */
  lemma CenturyAndYear(b: nat, d: nat)
    requires d < 100
    ensures YearStart(100 * b + d) == 146097 * b / 4 + 1461 * d / 4
  {
    var y := 100 * b + d;
    DivUnique(y, 100, b, d);
    assert y / 4 == 25 * b + d / 4;
    assert y / 400 == b / 4;
  }

  /** The two steps of the inverse: the largest k with floor(K * k / 4) <= x. */
  lemma LargestBelow(x: nat, K: nat, k: nat)
    requires K == 146097 || K == 1461
    ensures (4 * x + 3) / K >= k <==> x >= K * k / 4
  {
    if K == 1461 {
      assert (4 * x + 3) / 1461 >= k <==> x >= 1461 * k / 4;
    } else {
      assert (4 * x + 3) / 146097 >= k <==> x >= 146097 * k / 4;
    }
  }

  lemma LargestMonth(e: nat, m: nat)
    ensures (5 * e + 2) / 153 >= m <==> e >= MonthStart(m)
  {
  }

  lemma {:induction false} YearStartGrows(y: nat, z: nat)
    requires y <= z
    ensures YearStart(y) <= YearStart(z)
  {
    if y < z {
      YearStartGrows(y, z - 1);
      YearLength(z - 1);
    }
  }

  /** The day number finds its century and year again. */
  lemma FindYear(y: nat, e: nat)
    requires YearStart(y) + e < YearStart(y + 1)
    ensures var a := YearStart(y) + e;
            var b := (4 * a + 3) / 146097;
            var c := a - b * 146097 / 4;
            && b == y / 100 && c >= 0
            && (4 * c + 3) / 1461 == y % 100
            && c - 1461 * (y % 100) / 4 == e
  {
    hide YearStart, IsLeap;
    var a, b, d := YearStart(y) + e, y / 100, y % 100;
    var next := b + 1;
    CenturyAndYear(b, d);
    CenturyAndYear(b, 0);
    CenturyAndYear(next, 0);
    YearStartGrows(y + 1, 100 * next);
    YearLength(y);
    LeapMeansFourth(b, d);
    LargestBelow(a, 146097, b);
    LargestBelow(a, 146097, next);
    var c := a - 146097 * b / 4;
    assert c == 1461 * d / 4 + e;
    LargestBelow(c, 1461, d);
    var after := d + 1;
    LargestBelow(c, 1461, after);
    FourthStep(d);
  }

  lemma LeapMeansFourth(b: nat, d: nat)
    ensures IsLeap(100 * b + d + 1 - 4800) ==> (d + 1) % 4 == 0
  {
  }

  lemma FourthStep(d: nat)
    ensures 1461 * (d + 1) / 4 == 1461 * d / 4 + (if (d + 1) % 4 == 0 then 366 else 365)
  {
  }

  /** What the inverse returns for day e of year y. */
  lemma Assembled(y: nat, e: nat)
    requires YearStart(y) + e < YearStart(y + 1)
    ensures var m := (5 * e + 2) / 153;
            YearMonthDay(YearStart(y) + e - 32044)
            == Date(y - 4800 + m / 10, m + 3 - 12 * (m / 10), e - MonthStart(m) + 1)
  {
    hide YearStart, Quotient;
    FindYear(y, e);
    var a, b, d, m := YearStart(y) + e, y / 100, y % 100, (5 * e + 2) / 153;
    assert Quotient(4 * a + 3, 146097) == b && Quotient(b * 146097, 4) == b * 146097 / 4;
    var c := a - b * 146097 / 4;
    assert Quotient(4 * c + 3, 1461) == d && Quotient(1461 * d, 4) == 1461 * d / 4;
    assert Quotient(5 * e + 2, 153) == m && Quotient(153 * m + 2, 5) == MonthStart(m) && Quotient(m, 10) == m / 10;
  }

  /** Every date comes back from its day number. */
  lemma DateRoundTrip(d: Date)
    requires IsDate(d) && InRange(d)
    ensures JulianDay(d) >= -32044 && YearMonthDay(JulianDay(d)) == d
  {
    hide YearStart, JulianDay, YearMonthDay, IsLeap;
    var m := MonthOf(d);
    DayNumberInMarchYears(d);
    DayOfYear(d);
    var e := MonthStart(m) + d.day - 1;
    Assembled(YearOf(d), e);
    LargestMonth(e, m);
    LargestMonth(e, m + 1);
    YearLength(YearOf(d));
    assert m == 11 ==> MonthStart(12) == 367;
    hide *;
    assert m / 10 == if d.month >= 3 then 0 else 1;
  }

  /** Every day number from -32044 on is the number of a date: going day by day from 1 March -4800
      misses none. */
  lemma {:induction false} NumberRoundTrip(n: int)
    requires n >= -32044
    ensures IsDate(YearMonthDay(n)) && InRange(YearMonthDay(n)) && JulianDay(YearMonthDay(n)) == n
    decreases n + 32044
  {
    hide YearMonthDay;
    if n == -32044 {
      DateRoundTrip(Date(-4800, 3, 1));
    } else {
      hide JulianDay;
      NumberRoundTrip(n - 1);
      var d := YearMonthDay(n - 1);
      NextDayNumber(d);
      DateRoundTrip(NextDay(d));
    }
  }

  // ----- days of the year -----

  /** The distance to 1 January is a day of the year. */
  lemma DayInYear(d: Date)
    requires IsDate(d) && d.year > -4800
    ensures 0 <= JulianDay(d) - JulianDay(Date(d.year, 1, 1)) < if IsLeap(d.year) then 366 else 365
  {
    hide YearStart, JulianDay, IsLeap;
    var first := Date(d.year, 1, 1);
    DayNumberInMarchYears(d);
    DayNumberInMarchYears(first);
    YearLength(YearOf(first));
    DayOfYear(d);
    MonthBounds(d);
  }

  lemma MonthBounds(d: Date)
    requires IsDate(d)
    ensures MonthStart(10) == 306
    ensures d.month >= 3 ==> MonthStart(MonthOf(d)) + d.day <= 306
    ensures d.month < 3 ==> 306 <= MonthStart(MonthOf(d)) && MonthStart(MonthOf(d)) + d.day <= 337 + DaysIn(d.year, 2)
  {
    hide IsLeap;
  }

  // ----- 32-bit integers -----

  predicate IsInt32(x: int) { -0x8000_0000 <= x < 0x8000_0000 }

  /** Every value the inverse goes through. */
  function Steps(n: int): (s: seq<int>) {
    var a := n + 32044;
    var b := Quotient(4 * a + 3, 146097);
    var c := a - Quotient(b * 146097, 4);
    var d := Quotient(4 * c + 3, 1461);
    var e := c - Quotient(1461 * d, 4);
    var m := Quotient(5 * e + 2, 153);
    [a, 4 * a, 4 * a + 3, b * 146097, c, 4 * c + 3, 1461 * d, e, 5 * e + 2, 153 * m + 2, b * 100 + d]
  }

  lemma StepsPlain(n: int)
    requires n >= -32044
    ensures var a := n + 32044;
            var b := (4 * a + 3) / 146097;
            var c := a - b * 146097 / 4;
            var d := (4 * c + 3) / 1461;
            var e := c - 1461 * d / 4;
            var m := (5 * e + 2) / 153;
            && b * 146097 <= 4 * a + 3 && 0 <= c <= 36524 && 0 <= d < 100 && 0 <= e <= 365 && 0 <= m <= 11
            && Steps(n) == [a, 4 * a, 4 * a + 3, b * 146097, c, 4 * c + 3, 1461 * d, e, 5 * e + 2, 153 * m + 2, b * 100 + d]
  {
    hide Quotient;
    var a := n + 32044;
    CenturyLength(a);
    var b := (4 * a + 3) / 146097;
    var c := a - b * 146097 / 4;
    YearInCentury(c);
    var d := (4 * c + 3) / 1461;
    var e := c - 1461 * d / 4;
    assert Quotient(4 * a + 3, 146097) == b && Quotient(b * 146097, 4) == b * 146097 / 4;
    assert Quotient(4 * c + 3, 1461) == d && Quotient(1461 * d, 4) == 1461 * d / 4;
    assert Quotient(5 * e + 2, 153) == (5 * e + 2) / 153;
  }

  /** The day numbers for which the inverse does not overflow: 4 * a + 3 is its largest value. */
  lemma StepsFit(n: int)
    requires n >= -32044
    ensures (forall i | 0 <= i < |Steps(n)| :: IsInt32(Steps(n)[i])) <==> n <= 536838867
  {
    StepsPlain(n);
    hide Steps;
    assert Steps(n)[2] == 4 * (n + 32044) + 3;
  }

  lemma CenturyLength(a: nat)
    ensures 0 <= a - (4 * a + 3) / 146097 * 146097 / 4 <= 36524
  {
  }

  lemma YearInCentury(c: nat)
    requires c <= 36524
    ensures 0 <= (4 * c + 3) / 1461 < 100
    ensures 0 <= c - 1461 * ((4 * c + 3) / 1461) / 4 <= 365
  {
  }

  // ----- days of the week -----

  /** weekDay, counting from Sunday */
  function WeekDay(n: int): (w: int) { Remainder(n + 1, 7) }

  /** The days of the week follow each other. */
  lemma WeekDays(n: int)
    requires n >= -1
    ensures 0 <= WeekDay(n) < 7 && WeekDay(n + 1) == (WeekDay(n) + 1) % 7
  {
    hide Remainder;
    var q, r := (n + 1) / 7, (n + 1) % 7;
    if r < 6 {
      DivUnique(n + 2, 7, q, r + 1);
    } else {
      DivUnique(n + 2, 7, q + 1, 0);
    }
  }

  /** 1 January 1970 was a Thursday. */
  lemma Epoch()
    ensures JulianDay(Date(1970, 1, 1)) == 2440588 && WeekDay(2440588) == 4
  {
  }
}
