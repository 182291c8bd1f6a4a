/** The monthly pay handler (`GET /my-salary`): base pay from the hours of
    the month's closed attendance rows, a weekly-rest (holiday) allowance for
    every week of at least 15 hours, and a half-rate night premium. */
module Salary {
  import opened Base
  import opened Tables
  import opened Night

  type DayOfMonth = d: int | 1 <= d <= 31 witness 1

  /** A closed attendance row of the requested month; `day` is the local
      day of the month of its check-in. */
  datatype Shift = Shift(checkIn: int, checkOut: int, day: DayOfMonth)

  /** The pay summary the handler answers with. */
  datatype PaySummary = PaySummary(
    hourlyWage: int,
    totalHours: real,
    baseSalary: int,
    totalHolidayPay: int,
    totalNightPay: int,
    totalNightHours: real,
    finalSalary: int)

  const HolidayThreshold: real := 15.0  // weekly hours that earn the allowance
  const HolidayCap: real := 40.0        // weekly hours counted at most
  const HolidayBase: real := 8.0        // allowance hours of a full week
  const NightRate: real := 0.5          // night premium on top of base pay

  /** `(checkOut - checkIn) / (1000 * 60 * 60)` */
  function WorkHours(s: Shift): (h: real)
    ensures h >= 0.0 <==> s.checkIn <= s.checkOut
    ensures h * MsPerHour as real == (s.checkOut - s.checkIn) as real
  {
    (s.checkOut - s.checkIn) as real / MsPerHour as real
  }

  /** `Math.ceil(day / 7)`: the partition of the month into days 1-7, 8-14, ... */
  function WeekOf(day: DayOfMonth): (w: int)
    ensures 1 <= w <= 5
    ensures 7 * (w - 1) < day <= 7 * w
  {
    (day + 6) / 7
  }

  // ---------------------------------------------------------------------------
  // Sums over the month's rows, as the `forEach` accumulates them

  function TotalHours(ss: seq<Shift>): real
  {
    if ss == [] then 0.0 else TotalHours(ss[..|ss| - 1]) + WorkHours(ss[|ss| - 1])
  }

  function TotalNightHours(ss: seq<Shift>): real
  {
    if ss == [] then 0.0
    else TotalNightHours(ss[..|ss| - 1]) + NightHours(ss[|ss| - 1].checkIn, ss[|ss| - 1].checkOut)
  }

  /** Hours of the rows whose check-in falls in week `w`. */
  function WeekHours(ss: seq<Shift>, w: int): real
  {
    if ss == [] then 0.0
    else WeekHours(ss[..|ss| - 1], w) + (if WeekOf(ss[|ss| - 1].day) == w then WorkHours(ss[|ss| - 1]) else 0.0)
  }

  predicate HasWeek(ss: seq<Shift>, w: int)
  {
    exists k :: 0 <= k < |ss| && WeekOf(ss[k].day) == w
  }

  lemma HasWeekSnoc(ss: seq<Shift>, s: Shift, w: int)
    ensures HasWeek(ss + [s], w) <==> HasWeek(ss, w) || WeekOf(s.day) == w
  {
    if HasWeek(ss, w) {
      var k :| 0 <= k < |ss| && WeekOf(ss[k].day) == w;
      assert (ss + [s])[k] == ss[k];
    }
    if HasWeek(ss + [s], w) && WeekOf(s.day) != w {
      var k :| 0 <= k < |ss + [s]| && WeekOf((ss + [s])[k].day) == w;
      assert k < |ss| && (ss + [s])[k] == ss[k];
    }
    assert (ss + [s])[|ss|] == s;
  }

  /** The `forEach` over the rows: total hours, night hours and the weekly buckets. */
  method Accumulate(records: seq<Shift>) returns (totalMonthHours: real, totalNightHours: real, weeklyHours: map<int, real>)
    ensures totalMonthHours == TotalHours(records)
    ensures totalNightHours == TotalNightHours(records)
    ensures forall w :: w in weeklyHours <==> HasWeek(records, w)
    ensures forall w :: w in weeklyHours ==> weeklyHours[w] == WeekHours(records, w)
  {
    weeklyHours := map[];
    totalMonthHours := 0.0;
    totalNightHours := 0.0;
    for i := 0 to |records|
      invariant totalMonthHours == TotalHours(records[..i])
      invariant totalNightHours == TotalNightHours(records[..i])
      invariant forall w :: w in weeklyHours <==> HasWeek(records[..i], w)
      invariant forall w :: w in weeklyHours ==> weeklyHours[w] == WeekHours(records[..i], w)
    {
      var r := records[i];
      ghost var before := weeklyHours;
      var workHours := (r.checkOut - r.checkIn) as real / MsPerHour as real;
      totalMonthHours := totalMonthHours + workHours;
      var nightHours := NightOverlap(r.checkIn, r.checkOut);
      totalNightHours := totalNightHours + nightHours;
      var weekNum := WeekOf(r.day);
      if weekNum !in weeklyHours {
        EmptyWeekHasNoHours(records[..i], weekNum);
      }
      // `if (!weeklyHours[weekNum])` also fires on a bucket holding 0, which it leaves at 0
      if weekNum !in weeklyHours || weeklyHours[weekNum] == 0.0 {
        weeklyHours := weeklyHours[weekNum := 0.0];
      }
      weeklyHours := weeklyHours[weekNum := weeklyHours[weekNum] + workHours];
      BucketStep(records[..i], r, before, weeklyHours);
      assert records[..i + 1] == records[..i] + [r];
      assert records[..i + 1][..i] == records[..i];
    }
    assert records[..|records|] == records;
  }

  /** Adding one row's hours to its week's bucket, and leaving the other
      buckets alone, keeps the buckets in step with the rows. */
  lemma BucketStep(ss: seq<Shift>, s: Shift, weekly: map<int, real>, weekly': map<int, real>)
    requires forall w :: w in weekly <==> HasWeek(ss, w)
    requires forall w :: w in weekly ==> weekly[w] == WeekHours(ss, w)
    requires forall w :: w in weekly' <==> w in weekly || w == WeekOf(s.day)
    requires forall w :: w in weekly && w != WeekOf(s.day) ==> weekly'[w] == weekly[w]
    requires WeekOf(s.day) in weekly' && weekly'[WeekOf(s.day)] == WeekHours(ss, WeekOf(s.day)) + WorkHours(s)
    ensures forall w :: w in weekly' <==> HasWeek(ss + [s], w)
    ensures forall w :: w in weekly' ==> weekly'[w] == WeekHours(ss + [s], w)
  {
    assert (ss + [s])[..|ss|] == ss;
    forall w ensures HasWeek(ss + [s], w) <==> HasWeek(ss, w) || WeekOf(s.day) == w {
      HasWeekSnoc(ss, s, w);
    }
  }

  // ---------------------------------------------------------------------------
  // The weekly-rest allowance

  /** One week's allowance: nothing below 15 hours, otherwise
      min(hours, 40) / 40 of 8 hours' wage. */
  function HolidayShare(hours: real, wage: int): (share: real)
    ensures hours < HolidayThreshold ==> share == 0.0
    ensures hours >= HolidayCap ==> share == ProratedAllowance(HolidayCap, wage)
  {
    if hours >= HolidayThreshold then ProratedAllowance(if hours > HolidayCap then HolidayCap else hours, wage)
    else 0.0
  }

  /** `(calcHours / 40) * 8 * hourlyWage` */
  function ProratedAllowance(calcHours: real, wage: int): (a: real)
    ensures calcHours == 0.0 ==> a == 0.0
    ensures calcHours == HolidayCap ==> a == HolidayBase * wage as real
  {
    calcHours / HolidayCap * HolidayBase * wage as real
  }

  lemma HolidayShareBounds(hours: real, wage: int)
    requires wage >= 0
    ensures 0.0 <= HolidayShare(hours, wage) <= HolidayBase * wage as real
    ensures hours < HolidayThreshold ==> HolidayShare(hours, wage) == 0.0
    ensures hours >= HolidayCap ==> HolidayShare(hours, wage) == HolidayBase * wage as real
    ensures HolidayThreshold <= hours <= HolidayCap ==> HolidayShare(hours, wage) == hours / 5.0 * wage as real
  {
    if hours > HolidayCap {
      assert HolidayShare(hours, wage) == ProratedAllowance(HolidayCap, wage);
    } else if hours >= HolidayThreshold {
      assert HolidayShare(hours, wage) == ProratedAllowance(hours, wage);
      ProratedWithinCap(hours, wage);
    }
  }

  /** Between the threshold and the cap the share is `hours / 5` hours' wage,
      at most a full week's eight hours. */
  lemma ProratedWithinCap(hours: real, wage: int)
    requires wage >= 0 && 0.0 <= hours <= HolidayCap
    ensures ProratedAllowance(hours, wage) == hours / 5.0 * wage as real
    ensures 0.0 <= ProratedAllowance(hours, wage) <= HolidayBase * wage as real
  {
    var f := hours / 5.0;
    assert hours / HolidayCap * HolidayBase == f;
    MulAssoc(hours / HolidayCap, HolidayBase, wage as real);
    MulMono(f, HolidayBase, wage as real);
  }

  lemma MulAssoc(x: real, y: real, z: real)
    ensures x * y * z == x * (y * z)
  {
  }

  lemma MulMono(a: real, b: real, k: real)
    requires 0.0 <= a <= b && 0.0 <= k
    ensures 0.0 <= a * k <= b * k
  {
  }

  /** Allowance over the buckets 1..n of a weekly map (missing buckets add nothing). */
  function HolidayOfBuckets(weekly: map<int, real>, wage: int, n: int): real
    decreases n
  {
    if n <= 0 then 0.0
    else HolidayOfBuckets(weekly, wage, n - 1) + (if n in weekly then HolidayShare(weekly[n], wage) else 0.0)
  }

  /** The loop over `Object.entries(weeklyHours)`: integer keys come out in
      ascending order, and every key is a week number 1..5. */
  method HolidayPay(weeklyHours: map<int, real>, hourlyWage: int) returns (totalHolidayPay: real)
    requires forall w :: w in weeklyHours ==> 1 <= w <= 5
    ensures totalHolidayPay == HolidayOfBuckets(weeklyHours, hourlyWage, 5)
  {
    totalHolidayPay := 0.0;
    for week := 1 to 6
      invariant totalHolidayPay == HolidayOfBuckets(weeklyHours, hourlyWage, week - 1)
    {
      if week in weeklyHours {
        var hours := weeklyHours[week];
        if hours >= HolidayThreshold {
          var calcHours := if hours > HolidayCap then HolidayCap else hours;
          totalHolidayPay := totalHolidayPay + ProratedAllowance(calcHours, hourlyWage);
        }
      }
      assert HolidayOfBuckets(weeklyHours, hourlyWage, week)
          == HolidayOfBuckets(weeklyHours, hourlyWage, week - 1)
             + (if week in weeklyHours then HolidayShare(weeklyHours[week], hourlyWage) else 0.0);
    }
  }

  /** The month's allowance, week by week over weeks 1..n of the rows. */
  function HolidayOfWeeks(ss: seq<Shift>, wage: int, n: int): real
    decreases n
  {
    if n <= 0 then 0.0 else HolidayOfWeeks(ss, wage, n - 1) + HolidayShare(WeekHours(ss, n), wage)
  }

  function MonthHoliday(ss: seq<Shift>, wage: int): real
  {
    HolidayOfWeeks(ss, wage, 5)
  }

  // ---------------------------------------------------------------------------
  // The summary

  /** What the handler computes from the month's rows and the hourly wage. */
  function MonthlyPay(ss: seq<Shift>, wage: int): (p: PaySummary)
    ensures p.hourlyWage == wage && p.totalHours == TotalHours(ss) && p.totalNightHours == TotalNightHours(ss)
    ensures p.totalHolidayPay == MonthHoliday(ss, wage).Floor
  {
    PayFigures(wage, TotalHours(ss), TotalNightHours(ss), MonthHoliday(ss, wage))
  }

  /** The money figures from the hour totals: each floored independently. */
  function PayFigures(wage: int, hours: real, night: real, holiday: real): (p: PaySummary)
    ensures p.hourlyWage == wage && p.totalHours == hours && p.totalNightHours == night
    ensures p.baseSalary as real <= hours * wage as real < p.baseSalary as real + 1.0
    ensures p.totalHolidayPay as real <= holiday < p.totalHolidayPay as real + 1.0
    ensures p.totalNightPay as real <= night * wage as real * NightRate < p.totalNightPay as real + 1.0
    ensures p.finalSalary as real <= p.baseSalary as real + holiday + night * wage as real * NightRate < p.finalSalary as real + 1.0
  {
    var nightPay := night * wage as real * NightRate;
    var base := (hours * wage as real).Floor;
    PaySummary(wage, hours, base, holiday.Floor, nightPay.Floor, night, (base as real + holiday + nightPay).Floor)
  }

  /** Steps 5 and 6 of the handler: the night premium, the base pay and the final pay. */
  method FinalPay(hourlyWage: int, totalMonthHours: real, totalNightHours: real, totalHolidayPay: real)
    returns (summary: PaySummary)
    ensures summary == PayFigures(hourlyWage, totalMonthHours, totalNightHours, totalHolidayPay)
  {
    var totalNightPay := totalNightHours * hourlyWage as real * NightRate;
    var baseSalary := (totalMonthHours * hourlyWage as real).Floor;
    var finalSalary := (baseSalary as real + totalHolidayPay + totalNightPay).Floor;
    summary := PaySummary(hourlyWage, totalMonthHours, baseSalary, totalHolidayPay.Floor,
                          totalNightPay.Floor, totalNightHours, finalSalary);
  }

  /** `GET /my-salary`: the user's wage is looked up first; an unknown user
      gets 404 and nothing is computed. `records` are the user's closed rows
      of the requested month in check-in order, as the query selects them. */
  method MySalary(users: seq<User>, userId: int, records: seq<Shift>) returns (res: Result<PaySummary>)
    ensures FindUser(users, userId).None? ==> res == Err(UserNotFound)
    ensures FindUser(users, userId).Some? ==> res == Ok(MonthlyPay(records, FindUser(users, userId).value.hourlyWage))
  {
    var user := FindUser(users, userId);
    if user.None? {
      return Err(UserNotFound);
    }
    var hourlyWage := user.value.hourlyWage;
    var totalMonthHours, totalNightHours, weeklyHours := Accumulate(records);
    KeysAreWeeks(records, weeklyHours);
    var totalHolidayPay := HolidayPay(weeklyHours, hourlyWage);
    BucketsMatchWeeks(records, weeklyHours, hourlyWage, 5);
    assert totalHolidayPay == MonthHoliday(records, hourlyWage);
    var summary := FinalPay(hourlyWage, totalMonthHours, totalNightHours, totalHolidayPay);
    res := Ok(summary);
  }

  lemma KeysAreWeeks(ss: seq<Shift>, weekly: map<int, real>)
    requires forall w :: w in weekly <==> HasWeek(ss, w)
    ensures forall w :: w in weekly ==> 1 <= w <= 5
  {
    forall w | w in weekly ensures 1 <= w <= 5 {
      var k :| 0 <= k < |ss| && WeekOf(ss[k].day) == w;
    }
  }

  /** A week without rows has no hours. */
  lemma {:induction false} EmptyWeekHasNoHours(ss: seq<Shift>, w: int)
    requires !HasWeek(ss, w)
    ensures WeekHours(ss, w) == 0.0
  {
    if ss != [] {
      var init := ss[..|ss| - 1];
      HasWeekSnoc(init, ss[|ss| - 1], w);
      assert init + [ss[|ss| - 1]] == ss;
      EmptyWeekHasNoHours(init, w);
    }
  }

  /** The allowance over the buckets the loop built equals the allowance week by week. */
  lemma {:induction false} BucketsMatchWeeks(ss: seq<Shift>, weekly: map<int, real>, wage: int, n: int)
    requires forall w :: w in weekly <==> HasWeek(ss, w)
    requires forall w :: w in weekly ==> weekly[w] == WeekHours(ss, w)
    ensures HolidayOfBuckets(weekly, wage, n) == HolidayOfWeeks(ss, wage, n)
    decreases n
  {
    if n > 0 {
      BucketsMatchWeeks(ss, weekly, wage, n - 1);
      if n !in weekly {
        EmptyWeekHasNoHours(ss, n);
      }
    }
  }

  // ---------------------------------------------------------------------------
  // Properties of the pay figures

  /** Conservation: the five weekly buckets together hold every hour of the month. */
  lemma {:induction false} WeeksPartitionHours(ss: seq<Shift>)
    ensures WeekHours(ss, 1) + WeekHours(ss, 2) + WeekHours(ss, 3) + WeekHours(ss, 4) + WeekHours(ss, 5)
         == TotalHours(ss)
  {
    if ss != [] {
      WeeksPartitionHours(ss[..|ss| - 1]);
    }
  }

  /** Weeks outside 1..5 receive nothing. */
  lemma {:induction false} NoHoursOutsideWeeks(ss: seq<Shift>, w: int)
    requires w < 1 || w > 5
    ensures WeekHours(ss, w) == 0.0
  {
    if ss != [] {
      NoHoursOutsideWeeks(ss[..|ss| - 1], w);
    }
  }

  /** The allowance is never negative and at most 8 hours' wage for each week counted. */
  lemma {:induction false} HolidayOfWeeksBounds(ss: seq<Shift>, wage: int, n: int)
    requires wage >= 0
    ensures 0.0 <= HolidayOfWeeks(ss, wage, n) <= Repeated(HolidayBase * wage as real, n)
    decreases n
  {
    if n > 0 {
      HolidayOfWeeksBounds(ss, wage, n - 1);
      HolidayShareBounds(WeekHours(ss, n), wage);
    }
  }

  /** `x` added up `n` times. */
  function Repeated(x: real, n: int): real
    decreases n
  {
    if n <= 0 then 0.0 else Repeated(x, n - 1) + x
  }

  /** Weeks all under 15 hours earn no allowance. */
  lemma {:induction false} NoHolidayForShortWeeks(ss: seq<Shift>, wage: int, n: nat)
    requires forall w :: 1 <= w <= n ==> WeekHours(ss, w) < HolidayThreshold
    ensures HolidayOfWeeks(ss, wage, n) == 0.0
  {
    if n > 0 {
      NoHolidayForShortWeeks(ss, wage, n - 1);
    }
  }

  lemma {:induction false} NightHoursNonNegative(ss: seq<Shift>)
    ensures TotalNightHours(ss) >= 0.0
  {
    if ss != [] {
      var s := ss[|ss| - 1];
      NightHoursNonNegative(ss[..|ss| - 1]);
      NightMsBounds(s.checkIn, s.checkOut);
    }
  }

  /** When no row ends before it starts, night hours never exceed total hours. */
  lemma {:induction false} NightWithinTotal(ss: seq<Shift>)
    requires forall k :: 0 <= k < |ss| ==> ss[k].checkIn <= ss[k].checkOut
    ensures TotalNightHours(ss) <= TotalHours(ss)
  {
    if ss != [] {
      var s := ss[|ss| - 1];
      NightWithinTotal(ss[..|ss| - 1]);
      NightMsBounds(s.checkIn, s.checkOut);
    }
  }

  /** The allowance is at most 5 weeks of 8 hours' wage; with a non-negative
      wage the final pay is never below the base pay, and lies within one unit
      of the sum of the three floored parts. */
  lemma PayBounds(ss: seq<Shift>, wage: int)
    requires wage >= 0
    ensures var p := MonthlyPay(ss, wage);
      && 0 <= p.totalHolidayPay <= 40 * wage
      && 0 <= p.totalNightPay
      && p.baseSalary <= p.baseSalary + p.totalHolidayPay + p.totalNightPay <= p.finalSalary
      && p.finalSalary <= p.baseSalary + p.totalHolidayPay + p.totalNightPay + 1
  {
    HolidayOfWeeksBounds(ss, wage, 5);
    var week := HolidayBase * wage as real;
    assert Repeated(week, 5) == Repeated(week, 4) + week;
    assert Repeated(week, 4) == Repeated(week, 3) + week;
    assert Repeated(week, 3) == Repeated(week, 2) + week;
    assert Repeated(week, 2) == Repeated(week, 1) + week;
    assert Repeated(week, 5) == (40 * wage) as real;
    NightHoursNonNegative(ss);
    PayFiguresBounds(wage, TotalHours(ss), TotalNightHours(ss), MonthHoliday(ss, wage));
  }

  /** The same bounds on the money figures, from bounds on the hour totals. */
  lemma PayFiguresBounds(wage: int, hours: real, night: real, holiday: real)
    requires wage >= 0 && 0.0 <= night && 0.0 <= holiday <= (40 * wage) as real
    ensures var p := PayFigures(wage, hours, night, holiday);
      && 0 <= p.totalHolidayPay <= 40 * wage
      && 0 <= p.totalNightPay
      && p.baseSalary <= p.baseSalary + p.totalHolidayPay + p.totalNightPay <= p.finalSalary
      && p.finalSalary <= p.baseSalary + p.totalHolidayPay + p.totalNightPay + 1
  {
    var p := PayFigures(wage, hours, night, holiday);
    var nightPay := night * wage as real * NightRate;
    MulMono(0.0, night, wage as real);
    assert 0.0 <= nightPay;
    assert p.totalNightPay as real <= nightPay < p.totalNightPay as real + 1.0;
    assert p.totalHolidayPay as real <= holiday < p.totalHolidayPay as real + 1.0;
    assert p.finalSalary as real <= p.baseSalary as real + holiday + nightPay < p.finalSalary as real + 1.0;
  }

  /** A month without rows is all zeros, not an error. */
  lemma NoRecordsNoPay(wage: int)
    ensures MonthlyPay([], wage) == PaySummary(wage, 0.0, 0, 0, 0, 0.0, 0)
  {
  }

  /** A week of exactly 15 hours is eligible; 50 hours pay as 40. */
  lemma HolidayShareExamples(wage: int)
    ensures HolidayShare(15.0, wage) == 3.0 * wage as real
    ensures HolidayShare(14.99, wage) == 0.0
    ensures HolidayShare(50.0, wage) == HolidayBase * wage as real
  {
  }

  /** Two worked months at a wage of 10000: a single 09:00-18:00 day shift
      pays 90000 with no allowance and no premium; a single 23:00-03:00 night
      shift pays 40000 base plus a 20000 night premium. */
  /** A 09:00-18:00 shift at 10000 per hour: 9 hours, no night time, 90000. */
  lemma PayExampleDayShift()
    ensures var p := MonthlyPay([Shift(2 * MsPerDay + 9 * MsPerHour, 2 * MsPerDay + 18 * MsPerHour, 3)], 10000);
      p.totalHours == 9.0 && p.baseSalary == 90000 && p.totalNightHours == 0.0
      && p.totalHolidayPay == 0 && p.finalSalary == 90000
  {
    var day := Shift(2 * MsPerDay + 9 * MsPerHour, 2 * MsPerDay + 18 * MsPerHour, 3);
    DayStartUnique(2 * MsPerDay, day.checkIn);
    NightMsOfDaytime(day.checkIn, day.checkOut);
    assert [day][..0] == [];
    assert TotalHours([day]) == WorkHours(day) == 9.0;
    assert TotalNightHours([day]) == NightHours(day.checkIn, day.checkOut) == 0.0;
    NoHolidayForShortWeeks([day], 10000, 5);
  }

  /** A 23:00-03:00 shift at 10000 per hour: 4 night hours, 40000 base,
      20000 premium, 60000 in all. */
  lemma PayExampleOvernight()
    ensures var p := MonthlyPay([Shift(2 * MsPerDay + 23 * MsPerHour, 3 * MsPerDay + 3 * MsPerHour, 3)], 10000);
      p.totalHours == 4.0 && p.totalNightHours == 4.0 && p.baseSalary == 40000
      && p.totalNightPay == 20000 && p.totalHolidayPay == 0 && p.finalSalary == 60000
  {
    var night := Shift(2 * MsPerDay + 23 * MsPerHour, 3 * MsPerDay + 3 * MsPerHour, 3);
    DayStartUnique(2 * MsPerDay, night.checkIn);
    NightMsOfOvernight(night.checkIn, night.checkOut);
    assert [night][..0] == [];
    assert TotalHours([night]) == WorkHours(night) == 4.0;
    assert TotalNightHours([night]) == NightHours(night.checkIn, night.checkOut) == 4.0;
    NoHolidayForShortWeeks([night], 10000, 5);
  }
}
