/**
 Julian days and broken-down times (crypto/time_support.c): the algorithm of Fliegel and Van
 Flandern in both directions, against the Gregorian calendar.
 */
module Calendar {

  /** Division in C: toward zero. */
  function Div(a: int, b: nat): int
    requires b > 0
  {
    if a >= 0 then a / b else -(-a / b)
  }

  datatype Date = Date(y: int, m: int, d: int)

  // ---------- the calendar itself ----------

  predicate Leap(y: int)
  {
    y % 4 == 0 && (y % 100 != 0 || y % 400 == 0)
  }

  function DaysIn(y: int, m: int): int
  {
    if m == 2 then (if Leap(y) then 29 else 28)
    else if m == 4 || m == 6 || m == 9 || m == 11 then 30
    else 31
  }

  predicate ValidDate(t: Date)
  {
    1 <= t.m <= 12 && 1 <= t.d <= DaysIn(t.y, t.m)
  }

  /** From 1 March -4800 on no intermediate result of the conversions is negative. */
  predicate InRange(t: Date)
  {
    t.y > -4800 || (t.y == -4800 && t.m >= 3)
  }

  function NextDay(t: Date): Date
  {
    if t.d < DaysIn(t.y, t.m) then t.(d := t.d + 1)
    else if t.m < 12 then Date(t.y, t.m + 1, 1)
    else Date(t.y + 1, 1, 1)
  }

  // ---------- the conversions ----------

  /** `date_to_julian` */
  function DateToJulian(t: Date): int
  {
    Div(1461 * (t.y + 4800 + Div(t.m - 14, 12)), 4) +
    Div(367 * (t.m - 2 - 12 * Div(t.m - 14, 12)), 12) -
    Div(3 * Div(t.y + 4900 + Div(t.m - 14, 12), 100), 4) + t.d - 32075
  }

  /** `julian_to_date` */
  method JulianToDate(jd: int) returns (y: int, m: int, d: int)
    ensures Date(y, m, d) == DateOf(jd)
    ensures IsDateOf(jd, Date(y, m, d))
  {
    hide Div;
    hide IsDateOf;
    OneDate(jd);
    var L := jd + 68569;
    var n := Div(4 * L, 146097);
    L := L - Div(146097 * n + 3, 4);
    var i := Div(4000 * (L + 1), 1461001);
    L := L - Div(1461 * i, 4) + 31;
    var j := Div(80 * L, 2447);
    d := L - Div(2447 * j, 80);
    L := Div(j, 11);
    m := j + 2 - 12 * L;
    y := 100 * (n - 49) + i + L;
  }

  /** From 1 March -4800 on, t is the one date of the calendar with this Julian day. */
  ghost predicate IsDateOf(jd: int, t: Date)
  {
    && (jd >= -32044 ==> ValidDate(t) && InRange(t) && DateToJulian(t) == jd)
    && forall u :: ValidDate(u) && InRange(u) && DateToJulian(u) == jd ==> u == t
  }

  /** The locals of `julian_to_date` at its end */
  function DateOf(jd: int): Date
  {
    var l0 := jd + 68569;
    var n := Div(4 * l0, 146097);
    var l1 := l0 - Div(146097 * n + 3, 4);
    var i := Div(4000 * (l1 + 1), 1461001);
    var l2 := l1 - Div(1461 * i, 4) + 31;
    var j := Div(80 * l2, 2447);
    var l3 := Div(j, 11);
    Date(100 * (n - 49) + i + l3, j + 2 - 12 * l3, l2 - Div(2447 * j, 80))
  }

  // ---------- years that start in March ----------

  /** The year counted from March -4800, and the month counted from March as 1 */
  function MarchYear(t: Date): int
  {
    t.y + 4800 - (if t.m <= 2 then 1 else 0)
  }

  function MarchMonth(t: Date): int
  {
    t.m - 2 + (if t.m <= 2 then 12 else 0)
  }

  /** Days before year Y, and before month k of a year */
  function DaysToYear(Y: nat): int
  {
    1461 * Y / 4 - 3 * (Y / 100 + 1) / 4
  }

  function DaysToMonth(k: nat): int
  {
    367 * k / 12
  }

  lemma JulianByMarch(t: Date)
    requires 1 <= t.m <= 12 && InRange(t)
    ensures MarchYear(t) >= 0 && 1 <= MarchMonth(t) <= 12
    ensures DateToJulian(t) == DaysToYear(MarchYear(t)) + DaysToMonth(MarchMonth(t)) + t.d - 32075
  {
    assert Div(t.m - 14, 12) == if t.m <= 2 then -1 else 0;
    assert (MarchYear(t) + 100) / 100 == MarchYear(t) / 100 + 1;
  }

  lemma DaysByCentury(Y: nat, c: nat, i: nat)
    requires Y == 100 * c + i && i < 100
    ensures Y / 100 == c && DaysToYear(Y) == 36525 * c + 1461 * i / 4 - 3 * (c + 1) / 4
  {
    assert Y / 100 == c;
    assert 1461 * Y / 4 == 36525 * c + 1461 * i / 4;
  }

  /** Which years are leap years, by century and year of the century */
  lemma LeapByCentury(y: int, c: nat, i: nat)
    requires y == 100 * c + i + 1 - 4800 && i < 100
    ensures Leap(y) <==> (i + 1) % 4 == 0 && (i == 99 ==> (c + 1) % 4 == 0)
  {
    assert y % 4 == (i + 1) % 4;
    assert y % 100 == (i + 1) % 100;
    if i == 99 {
      var q, r := (c + 1) / 4, (c + 1) % 4;
      assert y == 400 * (q - 12) + 100 * r;
    }
  }

  lemma YearLengthAt(Y: nat, c: nat, i: nat)
    requires Y == 100 * c + i && i < 100
    ensures DaysToYear(Y + 1) - DaysToYear(Y) ==
      if (i + 1) % 4 == 0 && (i == 99 ==> (c + 1) % 4 == 0) then 366 else 365
  {
    DaysByCentury(Y, c, i);
    DaysByCentury(Y + 1, if i == 99 then c + 1 else c, if i == 99 then 0 else i + 1);
    hide *;
    YearStep(i);
    CenturyStep(c);
    assert 1461 * (99 + 1) / 4 == 36525;
  }

  lemma YearStep(i: nat)
    ensures 1461 * (i + 1) / 4 - 1461 * i / 4 == if (i + 1) % 4 == 0 then 366 else 365
  {
  }

  lemma CenturyStep(c: nat)
    ensures 3 * (c + 2) / 4 - 3 * (c + 1) / 4 == if (c + 1) % 4 == 0 then 0 else 1
  {
  }

  lemma YearLength(Y: nat)
    ensures DaysToYear(Y + 1) - DaysToYear(Y) == if Leap(Y + 1 - 4800) then 366 else 365
  {
    var c, i := Y / 100, Y % 100;
    hide *;
    YearLengthAt(Y, c, i);
    LeapByCentury(Y + 1 - 4800, c, i);
  }

  lemma MonthLength(k: nat)
    requires 1 <= k < 12
    ensures DaysToMonth(k + 1) - DaysToMonth(k) == if k == 2 || k == 4 || k == 7 || k == 9 then 30 else 31
  {
  }

  lemma NextMonth(t: Date)
    requires ValidDate(t) && InRange(t) && t.d == DaysIn(t.y, t.m) && t.m != 2
    ensures MarchYear(NextDay(t)) == MarchYear(t) && MarchMonth(NextDay(t)) == MarchMonth(t) + 1
    ensures DaysToMonth(MarchMonth(t) + 1) + 1 == DaysToMonth(MarchMonth(t)) + t.d + 1
  {
    MonthLength(MarchMonth(t));
  }

  lemma EndOfFebruary(t: Date)
    requires ValidDate(t) && InRange(t) && t.d == DaysIn(t.y, t.m) && t.m == 2
    ensures DateToJulian(Date(t.y, 3, 1)) == DateToJulian(t) + 1
  {
    var next := Date(t.y, 3, 1);
    JulianByMarch(t);
    JulianByMarch(next);
    assert MarchYear(next) == MarchYear(t) + 1 && MarchMonth(t) == 12 && MarchMonth(next) == 1;
    hide DateToJulian;
    hide DaysToYear;
    YearLength(MarchYear(t));
  }

  lemma EndOfMonth(t: Date)
    requires ValidDate(t) && InRange(t) && t.d == DaysIn(t.y, t.m) && t.m != 2
    ensures DateToJulian(NextDay(t)) == DateToJulian(t) + 1
  {
    NextMonth(t);
    NextDayIsValid(t);
    JulianByMarch(t);
    JulianByMarch(NextDay(t));
    hide *;
  }

  lemma NextDayIsValid(t: Date)
    requires ValidDate(t) && InRange(t)
    ensures ValidDate(NextDay(t)) && InRange(NextDay(t)) && 1 <= NextDay(t).m <= 12
  {
    hide Leap;
  }

  /** The day after has the next Julian day. */
  lemma NextDayIsNext(t: Date)
    requires ValidDate(t) && InRange(t)
    ensures ValidDate(NextDay(t)) && InRange(NextDay(t))
    ensures DateToJulian(NextDay(t)) == DateToJulian(t) + 1
  {
    NextDayIsValid(t);
    if t.d == DaysIn(t.y, t.m) {
      hide DateToJulian;
      hide Leap;
      if t.m == 2 {
        EndOfFebruary(t);
      } else {
        EndOfMonth(t);
      }
    }
  }

  // ---------- the way back ----------

  /** The quotient of the first step: n - 1 whole centuries have passed. */
  lemma Centuries(n: nat, r: nat)
    requires n >= 1 && r <= 36524 && (r == 36524 ==> n % 4 == 0)
    ensures 4 * ((146097 * n + 3) / 4 + r) / 146097 == n
  {
    var q, b := n / 4, n % 4;
    assert n == 4 * q + b;
    assert 146097 * n + 3 == 4 * (146097 * q) + (146097 * b + 3);
    assert (146097 * n + 3) / 4 == 146097 * q + (146097 * b + 3) / 4;
    assert (146097 * b + 3) / 4 == 36524 * b + (b + 3) / 4;
    var x := 4 * ((146097 * n + 3) / 4 + r);
    assert 146097 * n <= x < 146097 * n + 146097;
  }

  /** The second step: the year of the century. */
  lemma YearOfCentury(i: nat, e: nat)
    requires i < 100 && e <= 365 && (e == 365 ==> i % 4 == 3)
    ensures 4000 * (1461 * i / 4 + e + 1) / 1461001 == i
  {
    var a, b := i / 4, i % 4;
    assert i == 4 * a + b;
    assert 1461 * i / 4 == 1461 * a + 365 * b;
    var x := 4000 * (1461 * i / 4 + e + 1);
    assert 1461001 * i <= x < 1461001 * i + 1461001;
  }

  /** The last steps: month and day. */
  lemma MonthOfYear(k: nat, d: nat)
    requires 1 <= k <= 12 && 1 <= d <= (if k == 2 || k == 4 || k == 7 || k == 9 then 30 else if k == 12 then 29 else 31)
    ensures 80 * (DaysToMonth(k) + d) / 2447 == k && 2447 * k / 80 == DaysToMonth(k)
  {
  }

  /** A date's day of its March year, counted from 0, is 365 only on a leap day. */
  lemma DayOfYear(t: Date)
    requires ValidDate(t)
    ensures 0 <= DaysToMonth(MarchMonth(t)) - 31 + t.d <= 365
    ensures DaysToMonth(MarchMonth(t)) - 31 + t.d == 365 ==> t.m == 2 && t.d == 29 && Leap(t.y)
  {
  }

  lemma LeapEnd(t: Date, n: int, i: int)
    requires t.m == 2 && InRange(t) && n == MarchYear(t) / 100 + 1 && i == MarchYear(t) % 100 && Leap(t.y)
    ensures i % 4 == 3 && (i == 99 ==> n % 4 == 0)
  {
    assert MarchYear(t) == 100 * (n - 1) + i && MarchYear(t) + 1 - 4800 == t.y;
    hide Leap;
    LeapByCentury(t.y, n - 1, i);
  }

  lemma JulianParts(t: Date, n: int, i: int, e: int)
    requires 1 <= t.m <= 12 && InRange(t)
    requires n == MarchYear(t) / 100 + 1 && i == MarchYear(t) % 100
    requires e == DaysToMonth(MarchMonth(t)) - 31 + t.d
    ensures DateToJulian(t) + 68569 == (146097 * n + 3) / 4 + 1461 * i / 4 + e
  {
    JulianByMarch(t);
    hide DateToJulian;
    hide DaysToMonth;
    var Y := MarchYear(t);
    assert Y == 100 * (n - 1) + i;
    assert 1461 * Y / 4 == 36525 * (n - 1) + 1461 * i / 4;
    assert 36525 * n - 3 * n / 4 == (146097 * n + 3) / 4;
  }

  lemma Recover(jd: int, n: nat, i: nat, e: nat, k: nat, d: nat)
    requires n >= 1 && i < 100 && 1 <= k <= 12 && jd + 68569 == (146097 * n + 3) / 4 + 1461 * i / 4 + e
    requires e <= 365 && (e == 365 ==> i % 4 == 3 && (i == 99 ==> n % 4 == 0))
    requires 1 <= d <= (if k == 2 || k == 4 || k == 7 || k == 9 then 30 else if k == 12 then 29 else 31)
    requires e + 31 == DaysToMonth(k) + d
    ensures DateOf(jd) == Date(100 * (n - 49) + i + k / 11, k + 2 - 12 * (k / 11), d)
  {
    hide *;
    CenturyBound(i, e, n);
    Centuries(n, 1461 * i / 4 + e);
    YearOfCentury(i, e);
    MonthOfYear(k, d);
    StepsBack(jd, n, i, e, k, d);
  }

  lemma MarchDate(t: Date, n: int, i: int)
    requires ValidDate(t) && InRange(t) && n == MarchYear(t) / 100 + 1 && i == MarchYear(t) % 100
    ensures n >= 1 && 0 <= i < 100 && 1 <= MarchMonth(t) <= 12
    ensures 1 <= t.d <= (if MarchMonth(t) == 2 || MarchMonth(t) == 4 || MarchMonth(t) == 7 || MarchMonth(t) == 9 then 30
                         else if MarchMonth(t) == 12 then 29 else 31)
    ensures t.y == 100 * (n - 49) + i + MarchMonth(t) / 11
    ensures t.m == MarchMonth(t) + 2 - 12 * (MarchMonth(t) / 11)
  {
  }

  lemma LeapDay(t: Date, n: int, i: int, e: int)
    requires ValidDate(t) && InRange(t) && n == MarchYear(t) / 100 + 1 && i == MarchYear(t) % 100
    requires e == DaysToMonth(MarchMonth(t)) - 31 + t.d
    ensures 0 <= e <= 365 && (e == 365 ==> i % 4 == 3 && (i == 99 ==> n % 4 == 0))
  {
    DayOfYear(t);
    hide *;
    if e == 365 {
      LeapEnd(t, n, i);
    }
  }

  lemma FirstDay(jd: int, n: nat, i: nat, e: nat)
    requires n >= 1 && jd + 68569 == (146097 * n + 3) / 4 + 1461 * i / 4 + e
    ensures jd >= -32044
  {
  }

  lemma DateOfJulianAt(t: Date, n: int, i: int, e: int, k: int)
    requires ValidDate(t) && InRange(t) && n == MarchYear(t) / 100 + 1 && i == MarchYear(t) % 100
    requires k == MarchMonth(t) && e == DaysToMonth(k) - 31 + t.d && 1 <= t.m <= 12
    ensures DateToJulian(t) >= -32044 && DateOf(DateToJulian(t)) == t
  {
    hide *;
    JulianParts(t, n, i, e);
    LeapDay(t, n, i, e);
    MarchDate(t, n, i);
    FirstDay(DateToJulian(t), n, i, e);
    Recover(DateToJulian(t), n, i, e, k, t.d);
  }

  /** `julian_to_date` undoes `date_to_julian`. */
  lemma DateOfJulian(t: Date)
    requires ValidDate(t) && InRange(t)
    ensures DateToJulian(t) >= -32044 && DateOf(DateToJulian(t)) == t
  {
    hide DateToJulian;
    hide DateOf;
    DateOfJulianAt(t, MarchYear(t) / 100 + 1, MarchYear(t) % 100, DaysToMonth(MarchMonth(t)) - 31 + t.d, MarchMonth(t));
  }

  lemma CenturyBound(i: nat, e: nat, n: nat)
    requires i < 100 && e <= 365 && (e == 365 ==> i % 4 == 3 && (i == 99 ==> n % 4 == 0))
    ensures 1461 * i / 4 + e <= 36524 && (1461 * i / 4 + e == 36524 ==> n % 4 == 0)
  {
  }

  lemma StepsBack(jd: int, n: nat, i: nat, e: nat, k: nat, d: nat)
    requires n >= 1 && 1 <= k <= 12
    requires jd + 68569 == (146097 * n + 3) / 4 + 1461 * i / 4 + e
    requires 4 * (jd + 68569) / 146097 == n
    requires 4000 * (1461 * i / 4 + e + 1) / 1461001 == i
    requires e + 31 == DaysToMonth(k) + d && 80 * (DaysToMonth(k) + d) / 2447 == k && 2447 * k / 80 == DaysToMonth(k)
    ensures DateOf(jd) == Date(100 * (n - 49) + i + k / 11, k + 2 - 12 * (k / 11), d)
  {
  }

  function Epoch(): Date
  {
    Date(-4800, 3, 1)
  }

  /** Every Julian day from -32044 on is the day of a date. */
  lemma {:induction false} SomeDate(jd: int) returns (t: Date)
    requires jd >= -32044
    ensures ValidDate(t) && InRange(t) && DateToJulian(t) == jd
    decreases jd + 32044
  {
    if jd == -32044 {
      t := Epoch();
    } else {
      var s := SomeDate(jd - 1);
      NextDayIsNext(s);
      t := NextDay(s);
    }
  }

  lemma OneDate(jd: int)
    ensures IsDateOf(jd, DateOf(jd))
  {
    hide DateToJulian;
    hide DateOf;
    hide ValidDate;
    hide InRange;
    if jd >= -32044 {
      JulianOfDate(jd);
    }
    forall t | ValidDate(t) && InRange(t) && DateToJulian(t) == jd ensures t == DateOf(jd) {
      DateOfJulian(t);
    }
  }

  /** `date_to_julian` undoes `julian_to_date`, which always gives a date of the calendar. */
  lemma JulianOfDate(jd: int)
    requires jd >= -32044
    ensures ValidDate(DateOf(jd)) && InRange(DateOf(jd)) && DateToJulian(DateOf(jd)) == jd
  {
    var t := SomeDate(jd);
    DateOfJulian(t);
  }
}
