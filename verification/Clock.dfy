/** newland/src/time.c: calendar time to seconds since the Epoch. */
module Clock {
  import opened Machine

  const EPOCH_YEAR := 1970
  const SECONDS_PER_MINUTE := 60
  const SECONDS_PER_HOUR := 3600
  const SECONDS_PER_DAY := 86400

  datatype DateTime = DateTime(sec: int, min: int, hr: int, day: int, mon: int, yr: int)

  /** IS_LEAP_YEAR; only zero-tests of remainders, so the sign of a remainder does not matter. */
  predicate IsLeapYear(year: int) {
    (year % 4 == 0 && year % 100 != 0) || year % 400 == 0
  }

  const DAYS_PER_MONTH: seq<seq<int>> := [
    [31, 28, 31, 30, 31, 30, 31, 31, 30, 31, 30, 31],
    [31, 29, 31, 30, 31, 30, 31, 31, 30, 31, 30, 31]
  ]

  const DAYS_PER_YEAR: seq<int> := [365, 366]

  function Leap(year: int): int {
    if IsLeapYear(year) then 1 else 0
  }

  /** Days in the years from 1970 up to but excluding `year`. */
  function DaysBeforeYear(year: int): int
    decreases year
  {
    if year <= EPOCH_YEAR then 0 else DaysBeforeYear(year - 1) + DAYS_PER_YEAR[Leap(year - 1)]
  }

  /** Days in the first `months` months of `year`. */
  function DaysBeforeMonth(year: int, months: int): int
    requires months <= 12
    decreases months
  {
    if months <= 0 then 0 else DaysBeforeMonth(year, months - 1) + DAYS_PER_MONTH[Leap(year)][months - 1]
  }

  function DayNumber(dt: DateTime): int
    requires dt.mon <= 13
  {
    DaysBeforeYear(dt.yr) + DaysBeforeMonth(dt.yr, dt.mon - 1) + dt.day - 1
  }

  function SecondOfDay(dt: DateTime): int {
    dt.hr * SECONDS_PER_HOUR + dt.min * SECONDS_PER_MINUTE + dt.sec
  }

  function Seconds(dt: DateTime): int
    requires dt.mon <= 13
  {
    DayNumber(dt) * SECONDS_PER_DAY + SecondOfDay(dt)
  }

  /** dt2t, on a 32-bit time_t. A month past 13 would read beyond the month table. */
  method Dt2T(dt: DateTime) returns (t: i32)
    requires dt.mon <= 13
    ensures t == Signed(Seconds(dt))
  {
    t := AddYears(dt.yr);
    t := AddMonths(t, dt.yr, dt.mon);
    t := AddDays(t, dt.day - 1, DaysBeforeYear(dt.yr) + DaysBeforeMonth(dt.yr, dt.mon - 1));
    t := Add(t, dt.hr * SECONDS_PER_HOUR, DayNumber(dt) * SECONDS_PER_DAY);
    t := Add(t, dt.min * SECONDS_PER_MINUTE, DayNumber(dt) * SECONDS_PER_DAY + dt.hr * SECONDS_PER_HOUR);
    t := Add(t, dt.sec, Seconds(dt) - dt.sec);
  }

  /** The loop over the years before `yr`. */
  method AddYears(yr: int) returns (t: i32)
    ensures t == Signed(DaysBeforeYear(yr) * SECONDS_PER_DAY)
  {
    t := 0;
    var year := EPOCH_YEAR;
    while year < yr
      invariant EPOCH_YEAR <= year && (year <= yr || year == EPOCH_YEAR)
      invariant t == Signed(DaysBeforeYear(year) * SECONDS_PER_DAY)
    {
      t := AddDays(t, DAYS_PER_YEAR[Leap(year)], DaysBeforeYear(year));
      year := year + 1;
    }
  }

  /** The loop over the months of `yr` before `mon`. */
  method AddMonths(sum: i32, yr: int, mon: int) returns (t: i32)
    requires mon <= 13 && sum == Signed(DaysBeforeYear(yr) * SECONDS_PER_DAY)
    ensures t == Signed((DaysBeforeYear(yr) + DaysBeforeMonth(yr, mon - 1)) * SECONDS_PER_DAY)
  {
    t := sum;
    var month := 0;
    while month < mon - 1
      invariant 0 <= month && (month <= mon - 1 || month == 0)
      invariant t == Signed((DaysBeforeYear(yr) + DaysBeforeMonth(yr, month)) * SECONDS_PER_DAY)
    {
      t := AddDays(t, DAYS_PER_MONTH[Leap(yr)][month], DaysBeforeYear(yr) + DaysBeforeMonth(yr, month));
      month := month + 1;
    }
  }

  /** `t += x`, where `t` stands for the sum so far. */
  method Add(t: i32, x: int, ghost sum: int) returns (r: i32)
    requires t == Signed(sum)
    ensures r == Signed(sum + x)
  {
    SignedAdd(sum, x);
    r := Signed(t + x);
  }

  method AddDays(t: i32, days: int, ghost sum: int) returns (r: i32)
    requires t == Signed(sum * SECONDS_PER_DAY)
    ensures r == Signed((sum + days) * SECONDS_PER_DAY)
  {
    r := Add(t, days * SECONDS_PER_DAY, sum * SECONDS_PER_DAY);
  }

  // ----- valid dates -----

  predicate ValidDate(dt: DateTime) {
    && EPOCH_YEAR <= dt.yr && 1 <= dt.mon <= 12
    && 1 <= dt.day <= DAYS_PER_MONTH[Leap(dt.yr)][dt.mon - 1]
    && 0 <= dt.hr < 24 && 0 <= dt.min < 60 && 0 <= dt.sec < 60
  }

  /** tm_yday */
  function YearDay(dt: DateTime): int
    requires ValidDate(dt)
  {
    DaysBeforeMonth(dt.yr, dt.mon - 1) + dt.day - 1
  }

  /** Section 4.16, Seconds Since the Epoch, of POSIX.1-2017 XBD, with tm_year = yr - 1900. */
  function PosixSeconds(dt: DateTime): int
    requires ValidDate(dt)
  {
    var tmYear := dt.yr - 1900;
    dt.sec + dt.min * 60 + dt.hr * 3600 + YearDay(dt) * 86400
    + (tmYear - 70) * 31536000 + ((tmYear - 69) / 4) * 86400
    - ((tmYear - 1) / 100) * 86400 + ((tmYear + 299) / 400) * 86400
  }

  lemma {:induction false} YearsClosedForm(year: int)
    requires year >= EPOCH_YEAR
    ensures DaysBeforeYear(year)
            == (year - 1970) * 365 + (year - 1969) / 4 - (year - 1901) / 100 + (year - 1601) / 400
    decreases year
  {
    if year > EPOCH_YEAR {
      YearsClosedForm(year - 1);
      LeapSteps(year - 1);
    }
  }

  lemma QuotientStep(x: int, n: int)
    requires n == 4 || n == 100 || n == 400
    ensures (x + 1) / n == x / n + if (x + 1) % n == 0 then 1 else 0
  {
  }

  /** Each quotient of the closed form steps exactly in the years it is there to count. */
  lemma LeapSteps(y: int)
    ensures (y + 1 - 1969) / 4 == (y - 1969) / 4 + if y % 4 == 0 then 1 else 0
    ensures (y + 1 - 1901) / 100 == (y - 1901) / 100 + if y % 100 == 0 then 1 else 0
    ensures (y + 1 - 1601) / 400 == (y - 1601) / 400 + if y % 400 == 0 then 1 else 0
    ensures (y % 400 == 0 ==> y % 100 == 0) && (y % 100 == 0 ==> y % 4 == 0)
  {
    QuotientStep(y - 1969, 4);
    QuotientStep(y - 1901, 100);
    QuotientStep(y - 1601, 400);
    SameRemainder4(y);
    SameRemainder100(y);
    SameRemainder400(y);
  }

  lemma SameRemainder4(y: int)
    ensures (y - 1968) % 4 == y % 4
  {
  }

  lemma SameRemainder100(y: int)
    ensures (y - 1900) % 100 == y % 100 && (y % 100 == 0 ==> y % 4 == 0)
  {
    if y % 100 == 0 { assert y == 4 * (25 * (y / 100)); }
  }

  lemma SameRemainder400(y: int)
    ensures (y - 1600) % 400 == y % 400 && (y % 400 == 0 ==> y % 100 == 0)
  {
    if y % 400 == 0 { assert y == 100 * (4 * (y / 400)); }
  }

  /** The two loops compute the POSIX formula for every valid date. */
  lemma SecondsIsPosix(dt: DateTime)
    requires ValidDate(dt)
    ensures Seconds(dt) == PosixSeconds(dt)
  {
    YearsClosedForm(dt.yr);
  }

  // ----- order -----

  predicate EarlierDay(a: DateTime, b: DateTime) {
    a.yr < b.yr || (a.yr == b.yr && (a.mon < b.mon || (a.mon == b.mon && a.day < b.day)))
  }

  predicate SameDay(a: DateTime, b: DateTime) {
    a.yr == b.yr && a.mon == b.mon && a.day == b.day
  }

  /** Lexicographic order of year, month, day, hour, minute, second. */
  predicate Earlier(a: DateTime, b: DateTime) {
    EarlierDay(a, b)
    || (SameDay(a, b) && (a.hr < b.hr || (a.hr == b.hr && (a.min < b.min || (a.min == b.min && a.sec < b.sec)))))
  }

  lemma {:induction false} MonthsGrow(year: int, m: int, n: int)
    requires 0 <= m < n <= 12
    ensures DaysBeforeMonth(year, m) + DAYS_PER_MONTH[Leap(year)][m] <= DaysBeforeMonth(year, n)
    decreases n
  {
    if m + 1 < n {
      MonthsGrow(year, m, n - 1);
      assert DAYS_PER_MONTH[Leap(year)][n - 1] > 0;
    }
  }

  lemma {:induction false} YearsGrow(y: int, z: int)
    requires EPOCH_YEAR <= y < z
    ensures DaysBeforeYear(y) + DAYS_PER_YEAR[Leap(y)] <= DaysBeforeYear(z)
    decreases z
  {
    if y + 1 < z {
      YearsGrow(y, z - 1);
    }
  }

  lemma WholeYear(year: int)
    ensures DaysBeforeMonth(year, 12) == DAYS_PER_YEAR[Leap(year)]
  {
    var d := DAYS_PER_MONTH[Leap(year)];
    assert DaysBeforeMonth(year, 2) == d[0] + d[1] == 59 + Leap(year);
    assert DaysBeforeMonth(year, 4) == DaysBeforeMonth(year, 2) + d[2] + d[3] == 120 + Leap(year);
    assert DaysBeforeMonth(year, 6) == DaysBeforeMonth(year, 4) + d[4] + d[5] == 181 + Leap(year);
    assert DaysBeforeMonth(year, 8) == DaysBeforeMonth(year, 6) + d[6] + d[7] == 243 + Leap(year);
    assert DaysBeforeMonth(year, 10) == DaysBeforeMonth(year, 8) + d[8] + d[9] == 304 + Leap(year);
    assert DaysBeforeMonth(year, 12) == DaysBeforeMonth(year, 10) + d[10] + d[11];
  }

  lemma DayInYear(dt: DateTime)
    requires ValidDate(dt)
    ensures 0 <= YearDay(dt) < DAYS_PER_YEAR[Leap(dt.yr)]
  {
    WholeYear(dt.yr);
    assert DaysBeforeMonth(dt.yr, 0) == 0 && DAYS_PER_MONTH[Leap(dt.yr)][0] == 31;
    assert Leap(dt.yr) == 0 || Leap(dt.yr) == 1;
    if dt.mon > 1 { MonthsGrow(dt.yr, 0, dt.mon - 1); }
    MonthsGrow(dt.yr, dt.mon - 1, 12);
  }

  lemma DaysInOrder(a: DateTime, b: DateTime)
    requires ValidDate(a) && ValidDate(b) && EarlierDay(a, b)
    ensures DayNumber(a) < DayNumber(b)
  {
    if a.yr < b.yr {
      YearsGrow(a.yr, b.yr);
      DayInYear(a);
      DayInYear(b);
    } else if a.mon < b.mon {
      MonthsGrow(a.yr, a.mon - 1, b.mon - 1);
    }
  }

  lemma StrictlyIncreasing(a: DateTime, b: DateTime)
    requires ValidDate(a) && ValidDate(b)
    ensures Earlier(a, b) <==> Seconds(a) < Seconds(b)
    ensures a == b <==> Seconds(a) == Seconds(b)
  {
    if EarlierDay(a, b) { DaysInOrder(a, b); }
    if EarlierDay(b, a) { DaysInOrder(b, a); }
  }

  const LAST_SECOND := DateTime(7, 14, 3, 19, 1, 2038)

  lemma LastSecond()
    ensures ValidDate(LAST_SECOND) && Seconds(LAST_SECOND) == 0x7FFF_FFFF
  {
    January2038(LAST_SECOND);
  }

  lemma January2038(dt: DateTime)
    requires dt.yr == 2038 && dt.mon == 1
    ensures DayNumber(dt) == 24836 + dt.day
  {
    YearsBefore2038();
    assert DaysBeforeMonth(dt.yr, dt.mon - 1) == 0;
  }

  lemma YearsBefore2038()
    ensures DaysBeforeYear(2038) == 24837
  {
    YearsClosedForm(2038);
  }

  /** A signed 32-bit time_t holds the result exactly up to 2038-01-19 03:14:07. */
  lemma FitsIff(dt: DateTime)
    requires ValidDate(dt)
    ensures Seconds(dt) >= 0 && (Signed(Seconds(dt)) == Seconds(dt) <==> !Earlier(LAST_SECOND, dt))
  {
    LastSecond();
    SignedKeepsIff(Seconds(dt));
    StrictlyIncreasing(LAST_SECOND, dt);
    DayInYear(dt);
    if dt.yr > EPOCH_YEAR { YearsGrow(EPOCH_YEAR, dt.yr); }
  }
}
