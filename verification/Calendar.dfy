/**
 * The part of Go's calendar arithmetic that the registry relies on.
 *
 * An instant is a number of nanoseconds, in UTC, since the start of year 1 (Go's zero time).
 * `AddDate(0, 0, n)` is n days of 24 hours. `AddDate(n, 0, 0)` keeps month, day and time of day and
 * lets an impossible 29 February roll over to 1 March, which is why it is NOT monotone in its start.
 */
module Calendar {

  type Instant = int

  const ZERO_TIME: Instant := 0
  const DAY: int := 86_400_000_000_000

  // --- Days and years -------------------------------------------------------------------------

  predicate IsLeap(y: int) {
    y % 4 == 0 && (y % 100 != 0 || y % 400 == 0)
  }

  function YearLength(y: int): int {
    if IsLeap(y) then 366 else 365
  }

  /** Number of days from 1 January of year 1 to 1 January of year y (negative before year 1). */
  function DaysBeforeYear(y: int): int
    decreases if y < 1 then 2 - y else y
  {
    if y == 1 then 0
    else if y > 1 then DaysBeforeYear(y - 1) + YearLength(y - 1)
    else DaysBeforeYear(y + 1) - YearLength(y)
  }

  lemma YearStep(y: int)
    ensures DaysBeforeYear(y + 1) == DaysBeforeYear(y) + YearLength(y)
  {
  }

  lemma {:induction false} YearsAscend(y: int, z: int)
    requires y <= z
    ensures DaysBeforeYear(y) + 365 * (z - y) <= DaysBeforeYear(z)
    decreases z - y
  {
    if y < z {
      YearStep(z - 1);
      YearsAscend(y, z - 1);
    }
  }

  /** The year that contains the d-th day after 1 January of year y. */
  function YearFrom(d: int, y: int): (r: int)
    ensures DaysBeforeYear(r) <= DaysBeforeYear(y) + d < DaysBeforeYear(r + 1)
    decreases d < 0, if d < 0 then -d else d
  {
    YearStep(y);
    YearStep(y - 1);
    if d < 0 then YearFrom(d + YearLength(y - 1), y - 1)
    else if d < YearLength(y) then y
    else YearFrom(d - YearLength(y), y + 1)
  }

  function DayOf(t: Instant): int { t / DAY }

  function TimeOfDay(t: Instant): (r: int)
    ensures 0 <= r < DAY && t == DayOf(t) * DAY + r
  {
    t % DAY
  }

  function Year(t: Instant): int { YearFrom(DayOf(t), 1) }

  /** Days since 1 January of the instant's own year. */
  function YearDay(t: Instant): (r: int)
    ensures 0 <= r < YearLength(Year(t))
    ensures DayOf(t) == DaysBeforeYear(Year(t)) + r
  {
    YearStep(Year(t));
    DayOf(t) - DaysBeforeYear(Year(t))
  }

  /** A day lies in one year only. */
  lemma YearUnique(t: Instant, y: int)
    requires DaysBeforeYear(y) <= DayOf(t) < DaysBeforeYear(y + 1)
    ensures Year(t) == y
  {
    if Year(t) < y {
      YearsAscend(Year(t) + 1, y);
    } else if Year(t) > y {
      YearsAscend(y + 1, Year(t));
    }
  }

  // --- Months ---------------------------------------------------------------------------------

  function LeapDay(y: int): int { if IsLeap(y) then 1 else 0 }

  function DaysBeforeMonth(y: int, m: int): int {
    if m <= 1 then 0
    else if m == 2 then 31
    else if m == 3 then 59 + LeapDay(y)
    else if m == 4 then 90 + LeapDay(y)
    else if m == 5 then 120 + LeapDay(y)
    else if m == 6 then 151 + LeapDay(y)
    else if m == 7 then 181 + LeapDay(y)
    else if m == 8 then 212 + LeapDay(y)
    else if m == 9 then 243 + LeapDay(y)
    else if m == 10 then 273 + LeapDay(y)
    else if m == 11 then 304 + LeapDay(y)
    else 334 + LeapDay(y)
  }

  /** The last month of year y that starts on or before the given day of the year. */
  function MonthFrom(y: int, yearDay: int, m: int): (r: int)
    requires 1 <= m <= 12 && 0 <= yearDay
    requires m < 12 ==> yearDay < DaysBeforeMonth(y, m + 1)
    ensures 1 <= r <= m && DaysBeforeMonth(y, r) <= yearDay
    ensures r < 12 ==> yearDay < DaysBeforeMonth(y, r + 1)
  {
    if m == 1 || DaysBeforeMonth(y, m) <= yearDay then m else MonthFrom(y, yearDay, m - 1)
  }

  function Month(t: Instant): int { MonthFrom(Year(t), YearDay(t), 12) }

  function DayOfMonth(t: Instant): int { YearDay(t) - DaysBeforeMonth(Year(t), Month(t)) + 1 }

  /** The day that y-m-d denotes; a day past the end of its month runs on into the next one. */
  function DayNumber(y: int, m: int, d: int): int {
    DaysBeforeYear(y) + DaysBeforeMonth(y, m) + d - 1
  }

  predicate OnLeapDay(t: Instant) { Month(t) == 2 && DayOfMonth(t) == 29 }

  predicate OnFirstOfMarch(t: Instant) { Month(t) == 3 && DayOfMonth(t) == 1 }

  // --- AddDate --------------------------------------------------------------------------------

  /** `t.AddDate(n, 0, 0)`. */
  function AddYears(t: Instant, n: int): Instant {
    DayNumber(Year(t) + n, Month(t), DayOfMonth(t)) * DAY + TimeOfDay(t)
  }

  /** `t.AddDate(0, 0, n)`. */
  function AddDays(t: Instant, n: int): Instant { t + n * DAY }

  /** The day of the year after a move from year y to year z. */
  function MovedYearDay(yearDay: int, y: int, z: int): int {
    if yearDay <= 58 || (IsLeap(y) && yearDay == 59) then yearDay
    else yearDay - LeapDay(y) + LeapDay(z)
  }

  lemma MonthMoves(t: Instant, z: int)
    ensures DaysBeforeMonth(z, Month(t)) + DayOfMonth(t) - 1 == MovedYearDay(YearDay(t), Year(t), z)
    ensures OnLeapDay(t) <==> IsLeap(Year(t)) && YearDay(t) == 59
    ensures OnFirstOfMarch(t) <==> YearDay(t) == 59 + LeapDay(Year(t))
  {
  }

  lemma DayOfSum(day: int, rest: int)
    requires 0 <= rest < DAY
    ensures DayOf(day * DAY + rest) == day && TimeOfDay(day * DAY + rest) == rest
  {
  }

  lemma AddYearsDay(t: Instant, n: int)
    ensures DayOf(AddYears(t, n)) == DaysBeforeYear(Year(t) + n) + MovedYearDay(YearDay(t), Year(t), Year(t) + n)
    ensures TimeOfDay(AddYears(t, n)) == TimeOfDay(t)
  {
    MonthMoves(t, Year(t) + n);
    DayOfSum(DayNumber(Year(t) + n, Month(t), DayOfMonth(t)), TimeOfDay(t));
  }

  /** Where AddYears lands: in year Year(t) + n, at the same time of day. */
  lemma AddYearsLands(t: Instant, n: int)
    ensures Year(AddYears(t, n)) == Year(t) + n
    ensures YearDay(AddYears(t, n)) == MovedYearDay(YearDay(t), Year(t), Year(t) + n)
    ensures TimeOfDay(AddYears(t, n)) == TimeOfDay(t)
  {
    AddYearsDay(t, n);
    var u := AddYears(t, n);
    var k := MovedYearDay(YearDay(t), Year(t), Year(t) + n);
    assert 0 <= k < YearLength(Year(t) + n);
    YearStep(Year(t) + n);
    YearUnique(u, Year(t) + n);
  }

  /** A month and a day that exist in the instant's year and denote its day are its month and day. */
  lemma SameMonth(m: int, d: int, u: Instant)
    requires 1 <= m <= 12 && 1 <= d
    requires DaysBeforeMonth(Year(u), m) + d - 1 == YearDay(u)
    requires m < 12 ==> YearDay(u) < DaysBeforeMonth(Year(u), m + 1)
    ensures Month(u) == m && DayOfMonth(u) == d
  {
  }

  lemma MonthFits(t: Instant, z: int)
    requires !(OnLeapDay(t) && !IsLeap(z)) && Month(t) < 12
    ensures DaysBeforeMonth(z, Month(t)) + DayOfMonth(t) - 1 < DaysBeforeMonth(z, Month(t) + 1)
  {
    hide DaysBeforeYear, YearFrom;
  }

  /** Month and day are kept; only 29 February of a common target year becomes 1 March. */
  lemma AddYearsKeepsMonthAndDay(t: Instant, n: int)
    ensures !(OnLeapDay(t) && !IsLeap(Year(t) + n)) ==>
              Month(AddYears(t, n)) == Month(t) && DayOfMonth(AddYears(t, n)) == DayOfMonth(t)
    ensures OnLeapDay(t) && !IsLeap(Year(t) + n) ==> OnFirstOfMarch(AddYears(t, n))
  {
    hide DaysBeforeYear, YearFrom, DaysBeforeMonth, AddYears;
    AddYearsLands(t, n);
    MonthMoves(t, Year(t) + n);
    MonthMoves(AddYears(t, n), Year(t) + n);
    if !(OnLeapDay(t) && !IsLeap(Year(t) + n)) {
      if Month(t) < 12 {
        MonthFits(t, Year(t) + n);
      }
      SameMonth(Month(t), DayOfMonth(t), AddYears(t, n));
    }
  }

  /** More years means a strictly later instant. */
  lemma MoreYearsIsLater(t: Instant, n: int, m: int)
    requires n < m
    ensures AddYears(t, n) < AddYears(t, m)
  {
    AddYearsLands(t, n);
    AddYearsLands(t, m);
    LaterYearIsLater(AddYears(t, n), AddYears(t, m));
  }

  lemma LaterYearIsLater(t: Instant, u: Instant)
    requires Year(t) < Year(u)
    ensures t < u
  {
    YearsAscend(Year(t) + 1, Year(u));
  }

  /** Later instants lie in the same year or a later one. */
  lemma LaterIsNotEarlierYear(t: Instant, u: Instant)
    requires t <= u
    ensures Year(t) <= Year(u) && DayOf(t) <= DayOf(u)
    ensures Year(t) == Year(u) ==> YearDay(t) <= YearDay(u)
  {
    if Year(u) < Year(t) {
      LaterYearIsLater(u, t);
    }
  }

  /** Clock readings in the order in which they are taken. */
  predicate Nondecreasing(clocks: seq<Instant>) {
    forall i, j :: 0 <= i < j < |clocks| ==> clocks[i] <= clocks[j]
  }

  // --- The Gregorian calendar -----------------------------------------------------------------

  /** The usual count of leap years: every fourth, but no century unless it is a fourth one. */
  lemma {:induction false} DaysInClosedForm(y: int)
    ensures DaysBeforeYear(y) == 365 * (y - 1) + (y - 1) / 4 - (y - 1) / 100 + (y - 1) / 400
    decreases if y < 1 then 2 - y else y
  {
    if y > 1 {
      DaysInClosedForm(y - 1);
      YearStep(y - 1);
      LeapYearsCounted(y - 1);
    } else if y < 1 {
      DaysInClosedForm(y + 1);
      YearStep(y);
      LeapYearsCounted(y);
    }
  }

  lemma LeapYearsCounted(y: int)
    ensures YearLength(y) == 365 + (y / 4 - (y - 1) / 4) - (y / 100 - (y - 1) / 100) + (y / 400 - (y - 1) / 400)
  {
    assert y / 4 - (y - 1) / 4 == if y % 4 == 0 then 1 else 0;
    assert y / 100 - (y - 1) / 100 == if y % 100 == 0 then 1 else 0;
    assert y / 400 - (y - 1) / 400 == if y % 400 == 0 then 1 else 0;
  }

  /** Thirty days have September, April, June and November. */
  lemma MonthLengths(y: int, m: int)
    requires 1 <= m <= 12
    ensures (if m == 12 then YearLength(y) else DaysBeforeMonth(y, m + 1)) - DaysBeforeMonth(y, m)
            == if m == 2 then (if y % 4 == 0 && (y % 100 != 0 || y % 400 == 0) then 29 else 28)
               else if m in {4, 6, 9, 11} then 30 else 31
  {
  }

  /** The Unix epoch is where it should be. */
  lemma UnixEpoch(t: Instant)
    requires t == 719162 * (24 * 60 * 60 * 1_000_000_000)
    ensures Year(t) == 1970 && Month(t) == 1 && DayOfMonth(t) == 1 && TimeOfDay(t) == 0
  {
    hide DaysBeforeYear, YearFrom;
    DaysInClosedForm(1970);
    DaysInClosedForm(1971);
    DayOfSum(719162, 0);
    YearUnique(t, 1970);
    assert YearDay(t) == 0;
  }

  // --- When adding years keeps the order ------------------------------------------------------

  /** The one way two instants lose their order: 29 February and the 1 March after it meet on one day. */
  predicate Collide(t: Instant, u: Instant, n: int) {
    && OnLeapDay(t)
    && OnFirstOfMarch(u)
    && Year(u) == Year(t)
    && !IsLeap(Year(t) + n)
  }

  /** Counted in whole days, adding years never reverses two instants. */
  lemma AddYearsKeepsDayOrder(t: Instant, u: Instant, n: int)
    requires t <= u
    ensures DayOf(AddYears(t, n)) <= DayOf(AddYears(u, n))
    ensures DayOf(t) < DayOf(u) && !Collide(t, u, n) ==> DayOf(AddYears(t, n)) < DayOf(AddYears(u, n))
    ensures Collide(t, u, n) ==> DayOf(AddYears(t, n)) == DayOf(AddYears(u, n))
  {
    hide DaysBeforeYear, YearFrom;
    AddYearsDay(t, n);
    AddYearsDay(u, n);
    LaterIsNotEarlierYear(t, u);
    MonthMoves(t, Year(t) + n);
    MonthMoves(u, Year(u) + n);
    if Year(t) < Year(u) {
      YearsAscend(Year(t) + 1 + n, Year(u) + n);
      YearStep(Year(t) + n);
    }
  }

  /**
   * Exactly when adding years keeps the order of two instants. The code compares an expiry date plus
   * some years with the current time plus some years, so this is what that comparison is worth.
   */
  lemma AddYearsKeepsOrder(t: Instant, u: Instant, n: int)
    requires t <= u
    ensures AddYears(t, n) <= AddYears(u, n) <==> !(Collide(t, u, n) && TimeOfDay(u) < TimeOfDay(t))
    ensures AddYears(t, n) < AddYears(u, n) + DAY
  {
    AddYearsKeepsDayOrder(t, u, n);
    AddYearsDay(t, n);
    AddYearsDay(u, n);
  }

  // --- Renewing in several steps --------------------------------------------------------------

  /** Adding the given numbers of years one after the other. */
  function AddEach(t: Instant, years: seq<int>): Instant
    decreases |years|
  {
    if years == [] then t else AddEach(AddYears(t, years[0]), years[1..])
  }

  function Sum(years: seq<int>): int {
    if years == [] then 0 else years[0] + Sum(years[1..])
  }

  /** Whether one of the steps stops in a common year. */
  predicate PassesCommonYear(y: int, years: seq<int>)
    decreases |years|
  {
    years != [] && (!IsLeap(y + years[0]) || PassesCommonYear(y + years[0], years[1..]))
  }

  lemma OffLeapDayStays(t: Instant, n: int)
    requires !OnLeapDay(t)
    ensures !OnLeapDay(AddYears(t, n))
  {
    AddYearsKeepsMonthAndDay(t, n);
  }

  lemma NoYearsStays(t: Instant)
    ensures AddYears(t, 0) == t
  {
    hide DaysBeforeYear, YearFrom;
    AddYearsDay(t, 0);
    MonthMoves(t, Year(t));
  }

  /** Away from 29 February the steps of a renewal do not matter. */
  lemma {:induction false} StepsDoNotMatter(t: Instant, years: seq<int>)
    requires !OnLeapDay(t)
    ensures AddEach(t, years) == AddYears(t, Sum(years))
    decreases |years|
  {
    hide DaysBeforeYear, YearFrom;
    AddYearsDay(t, Sum(years));
    if years == [] {
      NoYearsStays(t);
    } else {
      var u := AddYears(t, years[0]);
      OffLeapDayStays(t, years[0]);
      StepsDoNotMatter(u, years[1..]);
      AddYearsLands(t, years[0]);
      AddYearsDay(u, Sum(years[1..]));
      MonthMoves(t, Year(t));
    }
  }

  lemma TwoStepsAdd(t: Instant, n: int, m: int)
    requires !OnLeapDay(t)
    ensures AddYears(AddYears(t, n), m) == AddYears(t, n + m)
  {
    hide AddYears;
    StepsDoNotMatter(t, [n, m]);
    assert [n, m][1..] == [m] && [m][1..] == [];
    assert Sum([n, m]) == n + Sum([m]) && Sum([m]) == m + Sum([]);
    assert AddEach(AddYears(t, n), [m]) == AddEach(AddYears(AddYears(t, n), m), []);
  }

  /**
   * Splitting a renewal never shortens it and lengthens it by at most one day. It does lengthen it
   * exactly when a domain expiring on 29 February is carried through a common year to a leap year.
   */
  lemma {:induction false} SplittingARenewal(t: Instant, years: seq<int>)
    ensures AddEach(t, years) ==
            if OnLeapDay(t) && PassesCommonYear(Year(t), years) && IsLeap(Year(t) + Sum(years))
            then AddYears(t, Sum(years)) + DAY
            else AddYears(t, Sum(years))
    decreases |years|
  {
    hide DaysBeforeYear, YearFrom;
    AddYearsDay(t, Sum(years));
    MonthMoves(t, Year(t) + Sum(years));
    if !OnLeapDay(t) {
      StepsDoNotMatter(t, years);
    } else if years != [] {
      var u := AddYears(t, years[0]);
      AddYearsLands(t, years[0]);
      AddYearsKeepsMonthAndDay(t, years[0]);
      AddYearsDay(u, Sum(years[1..]));
      MonthMoves(u, Year(u) + Sum(years[1..]));
      SplittingARenewal(u, years[1..]);
    }
  }
}
