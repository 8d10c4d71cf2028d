/**
 Adding to, and taking the difference of, broken-down times (crypto/time_support.c):
 `OPENSSL_gmtime_adj` and `OPENSSL_gmtime_diff` are addition and subtraction of seconds.
 */
module TimeAdjust {
  import opened Calendar

  const SECS_PER_DAY: nat := 86400

  /** The fields of a struct tm, as its standard counts them */
  datatype Time = Time(year: int, mon: int, mday: int, hour: int, min: int, sec: int)

  function DateOfTime(t: Time): Date
  {
    Date(t.year + 1900, t.mon + 1, t.mday)
  }

  function SecondOfDay(t: Time): int
  {
    t.hour * 3600 + t.min * 60 + t.sec
  }

  /** A time of the calendar; a leap second may be 60. */
  predicate ValidTime(t: Time)
  {
    && ValidDate(DateOfTime(t))
    && 0 <= t.hour < 24 && 0 <= t.min < 60 && 0 <= t.sec <= 60
  }

  /** Seconds since the Julian day 0 */
  function Moment(t: Time): int
  {
    DateToJulian(DateOfTime(t)) * SECS_PER_DAY + SecondOfDay(t)
  }

  /** The time of a moment */
  function TimeOf(moment: int): Time
  {
    var date, s := DateOf(moment / SECS_PER_DAY), moment % SECS_PER_DAY;
    Time(date.y - 1900, date.m - 1, date.d, s / 3600, s / 60 % 60, s % 60)
  }

  /** The first moment of a year */
  function YearStart(y: int): int
  {
    DateToJulian(Date(y, 1, 1))
  }

  /** What an adjustment by `offset` seconds gives: only the years 1900 to 9999 are allowed. */
  datatype Result = Fail | Ok(time: Time)

  predicate Allowed(moment: int)
  {
    YearStart(1900) * SECS_PER_DAY <= moment < YearStart(10000) * SECS_PER_DAY
  }

  function Adjusted(t: Time, offset: int): Result
  {
    if Allowed(Moment(t) + offset) then Ok(TimeOf(Moment(t) + offset)) else Fail
  }

  // ---------- laws ----------

  lemma YearStep(y: int)
    requires y >= -4799
    ensures YearStart(y) < YearStart(y + 1)
  {
    var t, u := Date(y, 1, 1), Date(y + 1, 1, 1);
    JulianByMarch(t);
    JulianByMarch(u);
    YearLength(MarchYear(t));
    hide DaysToYear;
    hide DateToJulian;
  }

  lemma WithinYear(t: Date)
    requires ValidDate(t) && t.y >= -4799
    ensures YearStart(t.y) <= DateToJulian(t) < YearStart(t.y + 1)
  {
    var s, u := Date(t.y, 1, 1), Date(t.y + 1, 1, 1);
    JulianByMarch(s);
    JulianByMarch(t);
    JulianByMarch(u);
    YearLength(MarchYear(s));
    DayOfYear(t);
    hide DaysToYear;
    hide DateToJulian;
    if t.m >= 3 {
      LaterMonth(MarchMonth(t), t.d);
    }
  }

  lemma LaterMonth(k: nat, d: nat)
    requires 1 <= k <= 10 && 1 <= d <= (if k == 2 || k == 4 || k == 7 || k == 9 then 30 else 31)
    ensures DaysToMonth(k) + d <= DaysToMonth(11)
  {
  }

  lemma {:induction false} YearsGrow(y: int, z: int)
    requires -4799 <= y <= z
    ensures YearStart(y) <= YearStart(z)
    decreases z - y
  {
    if y < z {
      YearsGrow(y, z - 1);
      YearStep(z - 1);
    }
  }

  /** The year of a Julian day, by the days years start on */
  lemma YearOfDay(jd: int, y: int)
    requires jd >= 0 && y >= -4799
    ensures DateOf(jd).y >= y <==> jd >= YearStart(y)
  {
    JulianOfDate(jd);
    var t := DateOf(jd);
    hide DateOf;
    hide YearStart;
    hide DateToJulian;
    EarlyDay(t);
    if t.y >= y {
      YearsGrow(y, t.y);
    } else {
      YearsGrow(t.y + 1, y);
    }
    WithinYear(t);
  }

  lemma EarlyDay(t: Date)
    requires ValidDate(t) && InRange(t)
    ensures t.y == -4800 ==> DateToJulian(t) < 0
  {
    MonthInRange(t);
    FirstMarchYear(t);
    hide *;
    JulianByMarch(t);
    DayOfYear(t);
  }

  lemma MonthInRange(t: Date)
    requires ValidDate(t)
    ensures 1 <= t.m <= 12
  {
  }

  lemma FirstMarchYear(t: Date)
    requires InRange(t)
    ensures t.y == -4800 ==> MarchYear(t) == 0 && DaysToYear(MarchYear(t)) == 0
  {
  }

  /** A moment's time is of the calendar, and of that moment. */
  lemma MomentOfTime(moment: int)
    requires moment >= 0
    ensures ValidTime(TimeOf(moment)) && TimeOf(moment).sec < 60 && Moment(TimeOf(moment)) == moment
  {
    JulianOfDate(moment / SECS_PER_DAY);
    Clock(moment % SECS_PER_DAY);
    hide DateOf;
    hide DateToJulian;
  }

  lemma Clock(s: nat)
    requires s < SECS_PER_DAY
    ensures s / 3600 < 24 && s / 3600 * 3600 + s / 60 % 60 * 60 + s % 60 == s
  {
    assert s / 60 == s / 3600 * 60 + s / 60 % 60;
  }

  /** A time without leap second is the time of its moment: no two have the same one. */
  lemma TimeOfMoment(t: Time)
    requires ValidTime(t) && t.sec < 60 && InRange(DateOfTime(t))
    ensures TimeOf(Moment(t)) == t
  {
    DateOfJulian(DateOfTime(t));
    hide DateOf;
    hide DateToJulian;
    var s := SecondOfDay(t);
    var jd := DateToJulian(DateOfTime(t));
    assert (jd * SECS_PER_DAY + s) / SECS_PER_DAY == jd && (jd * SECS_PER_DAY + s) % SECS_PER_DAY == s;
    ClockBack(t.hour, t.min, t.sec);
  }

  lemma ClockBack(h: nat, m: nat, s: nat)
    requires m < 60 && s < 60
    ensures (h * 3600 + m * 60 + s) / 3600 == h
    ensures (h * 3600 + m * 60 + s) / 60 % 60 == m
    ensures (h * 3600 + m * 60 + s) % 60 == s
  {
    assert (h * 3600 + m * 60 + s) / 60 == h * 60 + m;
  }

  /** Successive adjustments add up. */
  lemma AdjustmentsAdd(t: Time, a: int, b: int)
    requires Adjusted(t, a).Ok?
    ensures Adjusted(Adjusted(t, a).time, b) == Adjusted(t, a + b)
    ensures ValidTime(Adjusted(t, a).time) && Moment(Adjusted(t, a).time) == Moment(t) + a
  {
    hide *;
    var m := Moment(t) + a;
    AdjustedIs(t, a);
    AllowedIsPositive(m);
    MomentOfTime(m);
    AdjustedIs(t, a + b);
    AdjustedIs(TimeOf(m), b);
  }

  lemma AdjustedIs(t: Time, offset: int)
    ensures Adjusted(t, offset) == if Allowed(Moment(t) + offset) then Ok(TimeOf(Moment(t) + offset)) else Fail
  {
  }

  lemma Start1900()
    ensures YearStart(1900) == 2415021
  {
    JulianByMarch(Date(1900, 1, 1));
    hide DateToJulian;
  }

  lemma AllowedIsPositive(moment: int)
    ensures Allowed(moment) ==> moment >= 0
  {
    Start1900();
    hide YearStart;
  }

  lemma ValidSeconds(t: Time)
    requires ValidTime(t)
    ensures 0 <= SecondOfDay(t) <= SECS_PER_DAY
  {
  }

  /** The test on the year, and the time of the moment, by Julian day and second */
  lemma AllowedByYear(moment: int, jd: int, s: int)
    requires moment == jd * SECS_PER_DAY + s && jd >= 0 && 0 <= s < SECS_PER_DAY
    ensures Allowed(moment) <==> 1900 <= DateOf(jd).y <= 9999
    ensures TimeOf(moment) == Time(DateOf(jd).y - 1900, DateOf(jd).m - 1, DateOf(jd).d, s / 3600, s / 60 % 60, s % 60)
  {
    YearOfDay(jd, 1900);
    YearOfDay(jd, 10000);
    hide DateOf;
    hide YearStart;
    assert moment / SECS_PER_DAY == jd && moment % SECS_PER_DAY == s;
  }

  // ---------- the code ----------

  /** struct tm */
  class Tm {
    var year: int
    var mon: int
    var mday: int
    var hour: int
    var min: int
    var sec: int

    function Value(): Time
      reads this
    {
      Time(year, mon, mday, hour, min, sec)
    }

    constructor (t: Time)
      ensures Value() == t
    {
      year, mon, mday, hour, min, sec := t.year, t.mon, t.mday, t.hour, t.min, t.sec;
    }

    /** `julian_adj`: the Julian day and second of this time plus an offset */
    method JulianAdj(offDay: int, offsetSec: int) returns (ok: bool, day: int, sec: int)
      requires 0 <= SecondOfDay(Value()) <= SECS_PER_DAY
      ensures ok <==> Moment(Value()) + offDay * SECS_PER_DAY + offsetSec >= 0
      ensures ok ==> day * SECS_PER_DAY + sec == Moment(Value()) + offDay * SECS_PER_DAY + offsetSec
      ensures ok ==> day >= 0 && 0 <= sec < SECS_PER_DAY
    {
      hide DateToJulian;
      var offsetDay := Div(offsetSec, SECS_PER_DAY);
      var offsetHms := offsetSec - offsetDay * SECS_PER_DAY;
      offsetDay := offsetDay + offDay;
      offsetHms := offsetHms + hour * 3600 + min * 60 + this.sec;
      if offsetHms >= SECS_PER_DAY {
        offsetDay := offsetDay + 1;
        offsetHms := offsetHms - SECS_PER_DAY;
      } else if offsetHms < 0 {
        offsetDay := offsetDay - 1;
        offsetHms := offsetHms + SECS_PER_DAY;
      }
      var timeJd := DateToJulian(Date(year + 1900, mon + 1, mday)) + offsetDay;
      if timeJd < 0 {
        return false, 0, 0;
      }
      return true, timeJd, offsetHms;
    }

    /** `OPENSSL_gmtime_adj` */
    method GmtimeAdj(offDay: int, offsetSec: int) returns (ok: bool)
      requires ValidTime(Value())
      modifies this
      ensures Adjusted(old(Value()), offDay * SECS_PER_DAY + offsetSec) == if ok then Ok(Value()) else Fail
      ensures !ok ==> Value() == old(Value())
    {
      hide *;
      ghost var m := Moment(Value()) + offDay * SECS_PER_DAY + offsetSec;
      ValidSeconds(Value());
      AllowedIsPositive(m);
      AdjustedIs(Value(), offDay * SECS_PER_DAY + offsetSec);
      var jdOk, timeJd, timeSec := JulianAdj(offDay, offsetSec);
      if !jdOk {
        return false;
      }
      AllowedByYear(m, timeJd, timeSec);
      var timeYear, timeMonth, timeDay := JulianToDate(timeJd);
      if timeYear < 1900 || timeYear > 9999 {
        return false;
      }
      year := timeYear - 1900;
      mon := timeMonth - 1;
      mday := timeDay;
      hour := timeSec / 3600;
      min := timeSec / 60 % 60;
      this.sec := timeSec % 60;
      ValueIs(this);
      return true;
    }
  }

  lemma ValueIs(tm: Tm)
    ensures tm.Value() == Time(tm.year, tm.mon, tm.mday, tm.hour, tm.min, tm.sec)
  {
  }

  /** `OPENSSL_gmtime_diff` */
  method GmtimeDiff(from: Tm, to: Tm) returns (ok: bool, day: int, sec: int)
    requires ValidTime(from.Value()) && ValidTime(to.Value())
    ensures ok <==> Moment(from.Value()) >= 0 && Moment(to.Value()) >= 0
    ensures ok ==> day * SECS_PER_DAY + sec == Moment(to.Value()) - Moment(from.Value())
    ensures ok ==> 0 < sec + SECS_PER_DAY && sec < SECS_PER_DAY && (day > 0 ==> sec >= 0) && (day < 0 ==> sec <= 0)
  {
    hide Moment;
    var fromOk, fromJd, fromSec := from.JulianAdj(0, 0);
    if !fromOk {
      return false, 0, 0;
    }
    var toOk, toJd, toSec := to.JulianAdj(0, 0);
    if !toOk {
      return false, 0, 0;
    }
    var diffDay := toJd - fromJd;
    var diffSec := toSec - fromSec;
    if diffDay > 0 && diffSec < 0 {
      diffDay := diffDay - 1;
      diffSec := diffSec + SECS_PER_DAY;
    }
    if diffDay < 0 && diffSec > 0 {
      diffDay := diffDay + 1;
      diffSec := diffSec - SECS_PER_DAY;
    }
    return true, diffDay, diffSec;
  }

  /** Adjusting a time and taking the difference gives back the offset, in days and seconds of
      one sign. */
  method AdjustThenDiff(t: Time, offDay: int, offsetSec: int) returns (ok: bool, day: int, sec: int)
    requires ValidTime(t) && Moment(t) >= 0
    ensures ok == Allowed(Moment(t) + offDay * SECS_PER_DAY + offsetSec)
    ensures ok ==> day * SECS_PER_DAY + sec == offDay * SECS_PER_DAY + offsetSec
    ensures ok ==> 0 < sec + SECS_PER_DAY && sec < SECS_PER_DAY && (day > 0 ==> sec >= 0) && (day < 0 ==> sec <= 0)
  {
    hide *;
    ValidSeconds(t);
    AdjustedIs(t, offDay * SECS_PER_DAY + offsetSec);
    var from := new Tm(t);
    var to := new Tm(t);
    day, sec := 0, 0;
    ok := to.GmtimeAdj(offDay, offsetSec);
    if ok {
      AdjustmentsAdd(t, offDay * SECS_PER_DAY + offsetSec, 0);
      AdjustedIsPositive(t, offDay * SECS_PER_DAY + offsetSec);
      var diffOk;
      diffOk, day, sec := GmtimeDiff(from, to);
    }
  }

  lemma AdjustedIsPositive(t: Time, offset: int)
    requires Adjusted(t, offset).Ok?
    ensures Moment(t) + offset >= 0
  {
    AllowedIsPositive(Moment(t) + offset);
    hide Moment;
    hide Allowed;
    hide TimeOf;
  }
}
