/** Broken-down times, in UTC and in a zone with daylight saving time. */
module TimeZone {
  import opened Calendar

  const SECONDS_PER_DAY: int := 86400
  const EPOCH: int := 2440588

  /** struct tm */
  datatype Time = Time(year: int, mon: int, mday: int, hour: int, min: int, sec: int,
                       wday: int, yday: int, isDst: bool, gmtOffset: int)

  /** The day number of the day that t falls on. */
  function DayNumber(t: int): (n: int) { t / SECONDS_PER_DAY + EPOCH }

  /** The times whose date the calendar functions can handle. */
  predicate Covered(t: int) { DayNumber(t) >= -32044 }

  /** toUtcTime, with yday */
  function ToUtc(t: int): (u: Time) {
    var s := Remainder(t, SECONDS_PER_DAY);
    var d := Quotient(t, SECONDS_PER_DAY);
    var seconds := if s < 0 then s + SECONDS_PER_DAY else s;
    var days := if s < 0 then d - 1 else d;
    var date := YearMonthDay(days + EPOCH);
    Time(date.year - 1900, date.month - 1, date.day, seconds / 60 / 60, seconds / 60 % 60, seconds % 60,
         WeekDay(days + EPOCH), days + EPOCH - JulianDay(Date(date.year, 1, 1)), false, 0)
  }

  /** fromUtcTime */
  function FromUtc(u: Time): (t: int) {
    var date := Date(u.year + 1900, u.mon + 1, u.mday);
    (JulianDay(date) - EPOCH) * SECONDS_PER_DAY + (u.hour * 3600 + u.min * 60 + u.sec)
  }

  /** The adjustment for negative remainders makes the division round down. */
  lemma SplitDay(t: int)
    ensures var s, d := Remainder(t, SECONDS_PER_DAY), Quotient(t, SECONDS_PER_DAY);
            && (if s < 0 then s + SECONDS_PER_DAY else s) == t % SECONDS_PER_DAY
            && (if s < 0 then d - 1 else d) == t / SECONDS_PER_DAY
  {
  }

  /** Every field is in its range, and the date is a date. */
  lemma ToUtcFields(t: int)
    requires Covered(t)
    ensures var u := ToUtc(t);
            && 0 <= u.hour < 24 && 0 <= u.min < 60 && 0 <= u.sec < 60
            && u.hour * 3600 + u.min * 60 + u.sec == t % SECONDS_PER_DAY
            && IsDate(Date(u.year + 1900, u.mon + 1, u.mday)) && InRange(Date(u.year + 1900, u.mon + 1, u.mday))
            && JulianDay(Date(u.year + 1900, u.mon + 1, u.mday)) == DayNumber(t)
  {
    hide Quotient, Remainder, YearMonthDay, JulianDay, IsDate, InRange;
    SplitDay(t);
    NumberRoundTrip(DayNumber(t));
    HoursMinutesSeconds(t % SECONDS_PER_DAY);
  }

  /** The date that a broken-down time names. */
  function DateOf(u: Time): (d: Date) { Date(u.year + 1900, u.mon + 1, u.mday) }

  /** Day 0 is 1 January 1970, a Thursday, and the day of t is as many days from it as t has whole days. */
  lemma UtcDate(t: int)
    requires Covered(t)
    ensures var u := ToUtc(t);
            && JulianDay(DateOf(u)) - JulianDay(Date(1970, 1, 1)) == t / 86400
            && u.yday == JulianDay(DateOf(u)) - JulianDay(Date(u.year + 1900, 1, 1))
            && (t / 86400 >= -2440589 ==> u.wday == (t / 86400 + 4) % 7)
  {
    hide YearMonthDay, JulianDay, IsDate, InRange, Quotient, Remainder;
    ToUtcFields(t);
    SplitDay(t);
    Epoch();
    NumberRoundTrip(DayNumber(t));
    WeekDayPlain(DayNumber(t), t / 86400);
  }

  lemma WeekDayPlain(n: int, d: int)
    requires n == d + EPOCH
    ensures d >= -2440589 ==> WeekDay(n) == (d + 4) % 7
  {
    hide Remainder, Quotient;
    if d >= -2440589 {
      var x := d + 4;
      assert n + 1 == x + 7 * 348655;
      Sevens(x);
    }
  }

  lemma Sevens(x: int)
    ensures (x + 7 * 348655) % 7 == x % 7
  {
  }

  /** 1 January 1970 at midnight is time 0, and a day later it is the next day at the same time of day. */
  lemma UtcDayByDay(t: int)
    requires Covered(t)
    ensures DateOf(ToUtc(0)) == Date(1970, 1, 1)
    ensures Covered(t + 86400) && IsDate(DateOf(ToUtc(t))) && DateOf(ToUtc(t + 86400)) == NextDay(DateOf(ToUtc(t)))
    ensures var u, v := ToUtc(t), ToUtc(t + 86400); u.hour == v.hour && u.min == v.min && u.sec == v.sec
  {
    hide ToUtc, JulianDay, IsDate, InRange, YearMonthDay, NextDay;
    assert (t + 86400) / 86400 == t / 86400 + 1 && (t + 86400) % 86400 == t % 86400;
    ToUtcFields(t);
    ToUtcFields(t + 86400);
    ToUtcFields(0);
    Epoch();
    var d := DateOf(ToUtc(t));
    NextDayNumber(d);
    OneDate(DateOf(ToUtc(t + 86400)), NextDay(d));
    NewYear1970();
    OneDate(DateOf(ToUtc(0)), Date(1970, 1, 1));
    OneTime(ToUtc(t), ToUtc(t + 86400));
  }

  lemma NewYear1970()
    ensures IsDate(Date(1970, 1, 1)) && InRange(Date(1970, 1, 1))
  {
  }

  lemma OneDate(d: Date, e: Date)
    requires IsDate(d) && InRange(d) && IsDate(e) && InRange(e) && JulianDay(d) == JulianDay(e)
    ensures d == e
  {
    hide JulianDay, IsDate, InRange, YearMonthDay;
    DateRoundTrip(d);
    DateRoundTrip(e);
  }

  lemma OneTime(u: Time, v: Time)
    requires 0 <= u.min < 60 && 0 <= u.sec < 60 && 0 <= v.min < 60 && 0 <= v.sec < 60
    requires u.hour * 3600 + u.min * 60 + u.sec == v.hour * 3600 + v.min * 60 + v.sec
    ensures u.hour == v.hour && u.min == v.min && u.sec == v.sec
  {
  }

  /** The day of the year is that of the date. */
  lemma YearDay(t: int)
    requires Covered(t) && YearMonthDay(DayNumber(t)).year > -4800
    ensures var u := ToUtc(t); 0 <= u.yday < if IsLeap(u.year + 1900) then 366 else 365
  {
    hide Quotient, Remainder, YearMonthDay, JulianDay, IsDate, InRange, IsLeap;
    SplitDay(t);
    NumberRoundTrip(DayNumber(t));
    DayInYear(YearMonthDay(DayNumber(t)));
  }

  lemma HoursMinutesSeconds(s: nat)
    requires s < 86400
    ensures s / 60 / 60 < 24 && s / 60 / 60 * 3600 + s / 60 % 60 * 60 + s % 60 == s
  {
  }

  /** fromUtcTime undoes toUtcTime, before 1970 as well as after. */
  lemma UtcRoundTrip(t: int)
    requires Covered(t)
    ensures FromUtc(ToUtc(t)) == t
  {
    hide ToUtc, JulianDay;
    ToUtcFields(t);
  }

  /** The other way round: every broken-down time with a date and a time of day comes back. */
  lemma UtcInverse(date: Date, hour: int, min: int, sec: int)
    requires IsDate(date) && InRange(date) && 0 <= hour < 24 && 0 <= min < 60 && 0 <= sec < 60
    ensures var u := Time(date.year - 1900, date.month - 1, date.day, hour, min, sec, 0, 0, false, 0);
            && Covered(FromUtc(u))
            && ToUtc(FromUtc(u)).(wday := 0, yday := 0) == u
  {
    var u := Time(date.year - 1900, date.month - 1, date.day, hour, min, sec, 0, 0, false, 0);
    var t := FromUtc(u);
    var s := hour * 3600 + min * 60 + sec;
    hide Quotient, Remainder, YearMonthDay, JulianDay, IsDate, InRange;
    assert t / SECONDS_PER_DAY == JulianDay(date) - EPOCH && t % SECONDS_PER_DAY == s;
    DateRoundTrip(date);
    SplitDay(t);
    TimeOfDay(hour, min, sec);
  }

  lemma TimeOfDay(hour: int, min: int, sec: int)
    requires 0 <= hour < 24 && 0 <= min < 60 && 0 <= sec < 60
    ensures var s := hour * 3600 + min * 60 + sec; s / 60 / 60 == hour && s / 60 % 60 == min && s % 60 == sec
  {
  }

  // ----- zones -----

  /** A type of local time. */
  datatype Local = Local(gmtOffset: int, isDst: bool)

  /** starts are the transitions' UTC times, kinds the type each of them switches to. */
  datatype Zone = Zone(starts: seq<int>, kinds: seq<nat>, types: seq<Local>)

  ghost predicate IsZone(z: Zone) {
    && |z.kinds| == |z.starts| && |z.types| > 0
    && forall i | 0 <= i < |z.kinds| :: z.kinds[i] < |z.types|
  }

  /** The type after transition k; before the first transition it is the first type. */
  function TypeAt(z: Zone, k: int): (l: Local)
    requires IsZone(z) && -1 <= k < |z.starts|
  {
    if k == -1 then z.types[0] else z.types[z.kinds[k]]
  }

  /** The times of the transitions: in UTC, or in the local time that they begin. */
  function Keys(z: Zone, gmt: bool): (s: seq<int>)
    requires IsZone(z)
    ensures |s| == |z.starts|
  {
    if gmt then z.starts else seq(|z.starts|, i requires 0 <= i < |z.starts| => z.starts[i] + TypeAt(z, i).gmtOffset)
  }

  ghost predicate Sorted(s: seq<int>) {
    forall i, j | 0 <= i < j < |s| :: s[i] < s[j]
  }

  /** std::lower_bound: the first index whose element is not below x. */
  function LowerBound(s: seq<int>, x: int): (i: nat)
    ensures i <= |s|
  {
    if s == [] || s[0] >= x then 0 else 1 + LowerBound(s[1..], x)
  }

  /** findLocaltime: the index of the transition in force. */
  function Find(s: seq<int>, x: int): (k: int)
    ensures -1 <= k < |s|
  {
    if s == [] || x < s[0] then -1
    else
      var i := LowerBound(s, x);
      if i < |s| then (if s[i] != x then i - 1 else i) else |s| - 1
  }

  lemma {:induction false} LowerBoundIsFirst(s: seq<int>, x: int)
    requires Sorted(s)
    ensures var i := LowerBound(s, x);
            (forall j | 0 <= j < i :: s[j] < x) && (forall j | i <= j < |s| :: s[j] >= x)
  {
    if s != [] && s[0] < x {
      var t := s[1..];
      assert forall i | 0 <= i < |t| :: t[i] == s[i + 1];
      LowerBoundIsFirst(t, x);
      forall j | 0 <= j < |s|
        ensures j < LowerBound(s, x) ==> s[j] < x
        ensures j >= LowerBound(s, x) ==> s[j] >= x
      {
        if j > 0 {
          assert s[j] == t[j - 1];
        }
      }
    }
  }

  /** Transition k is the last one that is not after x. */
  ghost predicate InForce(s: seq<int>, x: int, k: int) {
    -1 <= k < |s| && (k >= 0 ==> s[k] <= x) && (k + 1 < |s| ==> x < s[k + 1])
  }

  lemma FindInForce(s: seq<int>, x: int)
    requires Sorted(s)
    ensures InForce(s, x, Find(s, x))
  {
    LowerBoundIsFirst(s, x);
  }

  lemma OnlyOneInForce(s: seq<int>, x: int, k: int)
    requires Sorted(s) && InForce(s, x, k)
    ensures Find(s, x) == k
  {
    hide Find;
    FindInForce(s, x);
  }

  /** toLocalTime */
  function ToLocal(z: Zone, t: int): (u: Time)
    requires IsZone(z)
  {
    var l := TypeAt(z, Find(Keys(z, true), t));
    ToUtc(t + l.gmtOffset).(isDst := l.isDst, gmtOffset := l.gmtOffset)
  }

  /** fromLocalTime */
  function FromLocal(z: Zone, u: Time): (t: int)
    requires IsZone(z)
  {
    var seconds := FromUtc(u);
    var l := TypeAt(z, Find(Keys(z, false), seconds));
    var try := ToLocal(z, seconds - l.gmtOffset);
    if u.isDst && !try.isDst && try.hour == u.hour && try.min == u.min then seconds - 3600 - l.gmtOffset
    else seconds - l.gmtOffset
  }

  // ----- zones that alternate between standard and daylight saving time -----

  /** Every transition moves the clock by step, forward into daylight saving time and back out of it,
      and the clock is never moved again within that time. */
  ghost predicate Alternates(z: Zone, step: int)
    requires IsZone(z)
  {
    && step > 0
    && (forall k | 0 <= k < |z.starts| - 1 :: z.starts[k + 1] - z.starts[k] > step)
    && forall k | 0 <= k < |z.starts| :: Switches(z, k, step)
  }

  ghost predicate Switches(z: Zone, k: nat, step: int)
    requires IsZone(z) && k < |z.starts|
  {
    var before, after := TypeAt(z, k - 1), TypeAt(z, k);
    && after.isDst == !before.isDst
    && after.gmtOffset == before.gmtOffset + (if after.isDst then step else -step)
  }

  lemma {:induction false} StartsGrow(z: Zone, step: int, i: nat, j: nat)
    requires IsZone(z) && Alternates(z, step) && i < j < |z.starts|
    ensures z.starts[j] - z.starts[i] > step
  {
    if i + 1 < j {
      StartsGrow(z, step, i, j - 1);
    }
  }

  lemma {:induction false} LocalStartsGrow(z: Zone, step: int, i: nat, j: nat)
    requires IsZone(z) && Alternates(z, step) && i < j < |z.starts|
    ensures Keys(z, false)[i] < Keys(z, false)[j]
  {
    assert Switches(z, j, step);
    if i + 1 < j {
      LocalStartsGrow(z, step, i, j - 1);
    }
  }

  lemma KeysSorted(z: Zone, step: int, gmt: bool)
    requires IsZone(z) && Alternates(z, step)
    ensures Sorted(Keys(z, gmt))
  {
    var s := Keys(z, gmt);
    forall i, j | 0 <= i < j < |s|
      ensures s[i] < s[j]
    {
      StartsGrow(z, step, i, j);
      LocalStartsGrow(z, step, i, j);
    }
  }

  /** The first pass through the repeated interval: daylight saving time, less than step before its
      end. */
  ghost predicate FirstPass(z: Zone, step: int, t: int)
    requires IsZone(z)
  {
    var k := Find(Keys(z, true), t);
    TypeAt(z, k).isDst && k + 1 < |z.starts| && t >= z.starts[k + 1] - step
  }

  /** Which transition fromLocalTime finds for the local time of t. */
  lemma FoundByLocal(z: Zone, step: int, t: int)
    requires IsZone(z) && Alternates(z, step)
    ensures var k := Find(Keys(z, true), t);
            Find(Keys(z, false), t + TypeAt(z, k).gmtOffset) == if FirstPass(z, step, t) then k + 1 else k
  {
    hide Find, Alternates;
    var s, l := Keys(z, true), Keys(z, false);
    KeysSorted(z, step, true);
    KeysSorted(z, step, false);
    FindInForce(s, t);
    var k := Find(s, t);
    NextSwitches(z, step, k);
    OnlyOneInForce(l, t + TypeAt(z, k).gmtOffset, if FirstPass(z, step, t) then k + 1 else k);
  }

  lemma NextSwitches(z: Zone, step: int, k: int)
    requires IsZone(z) && Alternates(z, step) && -1 <= k < |z.starts|
    ensures step > 0
    ensures k + 1 < |z.starts| ==> Switches(z, k + 1, step)
    ensures k + 2 < |z.starts| ==> Switches(z, k + 2, step) && z.starts[k + 2] - z.starts[k + 1] > step
  {
    if k + 2 < |z.starts| {
      var next := k + 1;
      assert z.starts[next + 1] - z.starts[next] > step;
    }
  }

  lemma SameInstant(u: Time, v: Time)
    requires v == u.(isDst := v.isDst, gmtOffset := v.gmtOffset)
    ensures FromUtc(u) == FromUtc(v)
  {
  }

  /** What comes back, for a zone that moves its clock by any step: the same time, except in the first
      pass through the repeated interval, where it is off by the difference between the step and one
      hour. */
  lemma LocalThereAndBack(z: Zone, step: int, t: int)
    requires IsZone(z) && Alternates(z, step)
    requires Covered(t + TypeAt(z, Find(Keys(z, true), t)).gmtOffset)
    ensures FromLocal(z, ToLocal(z, t)) == if FirstPass(z, step, t) then t + step - 3600 else t
  {
    hide Find, ToUtc, FromUtc, Alternates, Covered, IsZone;
    var s := Keys(z, true);
    var k := Find(s, t);
    var x := t + TypeAt(z, k).gmtOffset;
    UtcRoundTrip(x);
    assert FromUtc(ToLocal(z, t)) == x by { SameInstant(ToUtc(x), ToLocal(z, t)); }
    FoundByLocal(z, step, t);
    KeysSorted(z, step, true);
    FindInForce(s, t);
    NextSwitches(z, step, k);
    if FirstPass(z, step, t) {
      OnlyOneInForce(s, t + step, k + 1);
    }
  }

  /** With the usual step of one hour every time comes back, also from the repeated hour. */
  lemma LocalRoundTrip(z: Zone, t: int)
    requires IsZone(z) && Alternates(z, 3600)
    requires Covered(t + TypeAt(z, Find(Keys(z, true), t)).gmtOffset)
    ensures FromLocal(z, ToLocal(z, t)) == t
  {
    LocalThereAndBack(z, 3600, t);
  }

  /** One hour is the only step for which that holds, in a zone that ever ends daylight saving time. */
  lemma OnlyOneHour(z: Zone, step: int, k: nat)
    requires IsZone(z) && Alternates(z, step) && k < |z.starts| && !TypeAt(z, k).isDst
    requires Covered(z.starts[k] - 1 + TypeAt(z, k - 1).gmtOffset)
    ensures FromLocal(z, ToLocal(z, z.starts[k] - 1)) == z.starts[k] - 1 <==> step == 3600
  {
    var t := z.starts[k] - 1;
    assert Switches(z, k, step);
    KeysSorted(z, step, true);
    OnlyOneInForce(Keys(z, true), t, k - 1);
    LocalThereAndBack(z, step, t);
  }

  // ----- what the two functions return for any time -----

  /** The local clock shows the time plus the offset of the type in force. */
  lemma LocalFields(z: Zone, step: int, t: int, k: int)
    requires IsZone(z) && Alternates(z, step) && InForce(z.starts, t, k)
    requires Covered(t + TypeAt(z, k).gmtOffset)
    ensures var u, l := ToLocal(z, t), TypeAt(z, k);
            FromUtc(u) == t + l.gmtOffset && u.isDst == l.isDst && u.gmtOffset == l.gmtOffset
  {
    hide Find, ToUtc, FromUtc, Alternates, Covered;
    KeysSorted(z, step, true);
    OnlyOneInForce(Keys(z, true), t, k);
    var x := t + TypeAt(z, k).gmtOffset;
    UtcRoundTrip(x);
    SameInstant(ToUtc(x), ToLocal(z, t));
  }

  /** The result for any local time, also one that the clock skips or that carries the wrong flag: the
      type is the one that the last transition by the local clock begins.  An hour is taken off when
      the flag says daylight saving time but standard time is in force at the time so found. */
  lemma FromLocalExact(z: Zone, step: int, x: int, dst: bool, offset: int, j: int)
    requires IsZone(z) && Alternates(z, step) && Covered(x) && InForce(Keys(z, false), x, j)
    ensures var t := x - TypeAt(z, j).gmtOffset;
            FromLocal(z, ToUtc(x).(isDst := dst, gmtOffset := offset))
            == if dst && !TypeAt(z, j).isDst && (j + 1 < |z.starts| ==> t < z.starts[j + 1]) then t - 3600 else t
  {
    hide Find, ToUtc, FromUtc, Alternates, Covered;
    var u := ToUtc(x).(isDst := dst, gmtOffset := offset);
    UtcRoundTrip(x);
    SameInstant(ToUtc(x), u);
    KeysSorted(z, step, false);
    OnlyOneInForce(Keys(z, false), x, j);
    KeysSorted(z, step, true);
    NextSwitches(z, step, j);
    var t := x - TypeAt(z, j).gmtOffset;
    if j + 1 < |z.starts| && t >= z.starts[j + 1] {
      OnlyOneInForce(Keys(z, true), t, j + 1);
    } else {
      OnlyOneInForce(Keys(z, true), t, j);
    }
  }
}
