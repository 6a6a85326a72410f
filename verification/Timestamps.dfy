/**
 The stored form of an instant. Instants are microseconds since 0001-01-01T00:00:00 UTC, the
 range and resolution of datetime; the ledger stores them as ISO 8601 text floored to the second.
 */
module Timestamps {
  import opened Basics
  import opened Decimal

  const SECOND: nat := 1_000_000
  const MINUTE: nat := 60 * SECOND
  const DAY: nat := 86_400 * SECOND

  predicate IsLeap(y: nat) { y % 4 == 0 && (y % 100 != 0 || y % 400 == 0) }

  function DaysInYear(y: nat): nat { if IsLeap(y) then 366 else 365 }

  function DaysInMonth(y: nat, m: nat): (d: nat)
    ensures 28 <= d <= 31
  {
    if m == 2 then (if IsLeap(y) then 29 else 28)
    else if m in {4, 6, 9, 11} then 30
    else 31
  }

  /** Days from 0001-01-01 to the first day of year y. */
  function DaysBeforeYear(y: nat): nat
    requires y >= 1
  {
    365 * (y - 1) + (y - 1) / 4 - (y - 1) / 100 + (y - 1) / 400
  }

  lemma By4(y: nat)
    requires y >= 1
    ensures y / 4 == (y - 1) / 4 + if y % 4 == 0 then 1 else 0
  {
  }

  lemma By100(y: nat)
    requires y >= 1
    ensures y / 100 == (y - 1) / 100 + if y % 100 == 0 then 1 else 0
    ensures y % 100 == 0 ==> y % 4 == 0
  {
  }

  lemma By400(y: nat)
    requires y >= 1
    ensures y / 400 == (y - 1) / 400 + if y % 400 == 0 then 1 else 0
    ensures y % 400 == 0 ==> y % 100 == 0
  {
  }

  lemma YearLength(y: nat)
    requires y >= 1
    ensures DaysBeforeYear(y + 1) == DaysBeforeYear(y) + DaysInYear(y)
  {
    By4(y);
    By100(y);
    By400(y);
  }

  /** Days from the first day of year y to the first day of its month m. */
  function DaysBeforeMonth(y: nat, m: nat): nat
    requires m >= 1
  {
    if m == 1 then 0 else DaysBeforeMonth(y, m - 1) + DaysInMonth(y, m - 1)
  }

  /** The last day datetime can hold is 9999-12-31. */
  const DAYS: nat := 3_652_059

  predicate IsInstant(t: int) { 0 <= t < DAYS * DAY }

  type Instant = t: int | IsInstant(t)

  /** The year that day `n` falls in, counting up from year y. */
  function YearFrom(n: nat, y: nat): (r: nat)
    requires 1 <= y <= 9999 && DaysBeforeYear(y) <= n < DAYS
    ensures y <= r <= 9999
    ensures DaysBeforeYear(r) <= n < DaysBeforeYear(r) + DaysInYear(r)
    decreases 9999 - y
  {
    if n < DaysBeforeYear(y) + DaysInYear(y) then y
    else
      YearLength(y);
      assert y < 9999;
      YearFrom(n, y + 1)
  }

  lemma MonthsFillYear(y: nat)
    ensures DaysBeforeMonth(y, 13) == DaysInYear(y)
  {
    assert DaysBeforeMonth(y, 4) == DaysBeforeMonth(y, 3) + 31 == DaysBeforeMonth(y, 2) + DaysInMonth(y, 2) + 31;
    assert DaysBeforeMonth(y, 7) == DaysBeforeMonth(y, 6) + 30 == DaysBeforeMonth(y, 5) + 61;
    assert DaysBeforeMonth(y, 10) == DaysBeforeMonth(y, 9) + 30 == DaysBeforeMonth(y, 8) + 61;
    assert DaysBeforeMonth(y, 13) == DaysBeforeMonth(y, 12) + 31 == DaysBeforeMonth(y, 11) + 61;
  }

  /** The month that day `n` of year y falls in, counting up from month m. */
  function MonthFrom(y: nat, n: nat, m: nat): (r: nat)
    requires 1 <= m <= 12 && DaysBeforeMonth(y, m) <= n < DaysInYear(y)
    ensures m <= r <= 12
    ensures DaysBeforeMonth(y, r) <= n < DaysBeforeMonth(y, r) + DaysInMonth(y, r)
    decreases 12 - m
  {
    if n < DaysBeforeMonth(y, m) + DaysInMonth(y, m) then m
    else
      MonthsFillYear(y);
      assert DaysBeforeMonth(y, m + 1) == DaysBeforeMonth(y, m) + DaysInMonth(y, m);
      assert m < 12;
      MonthFrom(y, n, m + 1)
  }

  datatype Date = Date(y: nat, m: nat, d: nat)

  predicate IsDate(date: Date) {
    1 <= date.y <= 9999 && 1 <= date.m <= 12 && 1 <= date.d <= DaysInMonth(date.y, date.m)
  }

  /** The calendar date of a day number. */
  function DateOf(day: nat): (date: Date)
    requires day < DAYS
    ensures IsDate(date) && DayOf(date) == day
  {
    var y := YearFrom(day, 1);
    var n := day - DaysBeforeYear(y);
    var m := MonthFrom(y, n, 1);
    Date(y, m, n - DaysBeforeMonth(y, m) + 1)
  }

  /** The day number of a calendar date. */
  function DayOf(date: Date): nat
    requires IsDate(date)
  {
    DaysBeforeYear(date.y) + DaysBeforeMonth(date.y, date.m) + date.d - 1
  }

  /** The instant `second` seconds into a day. */
  function InstantOf(day: nat, second: nat): (t: int)
    requires day < DAYS && second < 86_400
    ensures IsInstant(t) && t % SECOND == 0
  {
    var n := day * 86_400 + second;
    assert n < DAYS * 86_400;
    n * SECOND
  }

  /** The whole second at or before an instant. */
  function Floor(t: int): int { t / SECOND * SECOND }

  lemma FloorSplits(t: int)
    requires IsInstant(t)
    ensures t / DAY < DAYS && 0 <= t % DAY / SECOND < 86_400
    ensures InstantOf(t / DAY, t % DAY / SECOND) == Floor(t)
  {
    assert t == t / DAY * DAY + t % DAY;
    assert t / SECOND == t / DAY * 86_400 + t % DAY / SECOND;
  }

  /** _timestamp: the text of an instant, to the second. */
  function Timestamp(t: int): (s: string)
    requires IsInstant(t)
    ensures |s| == 20
    ensures IsAscii(s)
  {
    FloorSplits(t);
    var second := t % DAY / SECOND;
    Layout(DateOf(t / DAY), second / 3600, second / 60 % 60, second % 60)
  }

  function Layout(date: Date, hour: nat, minute: nat, second: nat): (s: string)
    ensures |s| == 20
    ensures IsAscii(s)
  {
    Padded(date.y, 4) + "-" + Padded(date.m, 2) + "-" + Padded(date.d, 2) + "T" +
    Padded(hour, 2) + ":" + Padded(minute, 2) + ":" + Padded(second, 2) + "Z"
  }

  /** _parse_timestamp on the layout that Timestamp writes; None where it raises. */
  function ParseTimestamp(s: string): (r: Option<int>)
    ensures r.Some? ==> IsInstant(r.value) && r.value % SECOND == 0
  {
    if !HasLayout(s) then None
    else
      var date := Date(Value(s[0..4]), Value(s[5..7]), Value(s[8..10]));
      var hour, minute, second := Value(s[11..13]), Value(s[14..16]), Value(s[17..19]);
      if IsDate(date) && hour < 24 && minute < 60 && second < 60 then
        DayBound(date);
        Some(InstantOf(DayOf(date), hour * 3600 + minute * 60 + second))
      else
        None
  }

  predicate HasLayout(s: string) {
    && |s| == 20
    && AllDigits(s[0..4]) && s[4] == '-' && AllDigits(s[5..7]) && s[7] == '-' && AllDigits(s[8..10]) && s[10] == 'T'
    && AllDigits(s[11..13]) && s[13] == ':' && AllDigits(s[14..16]) && s[16] == ':' && AllDigits(s[17..19])
    && s[19] == 'Z'
  }

  lemma {:induction false} YearsGrow(y: nat, z: nat)
    requires 1 <= y <= z
    ensures DaysBeforeYear(y) <= DaysBeforeYear(z)
    decreases z - y
  {
    if y < z {
      YearLength(z - 1);
      YearsGrow(y, z - 1);
    }
  }

  lemma {:induction false} MonthsGrow(y: nat, m: nat, n: nat)
    requires 1 <= m <= n
    ensures DaysBeforeMonth(y, m) <= DaysBeforeMonth(y, n)
    decreases n - m
  {
    if m < n {
      MonthsGrow(y, m, n - 1);
    }
  }

  lemma DayBound(date: Date)
    requires IsDate(date)
    ensures DayOf(date) < DAYS
  {
    MonthsFillYear(date.y);
    MonthsGrow(date.y, date.m + 1, 13);
    YearLength(date.y);
    YearsGrow(date.y + 1, 10000);
  }

  /** The fields that a text in the stored layout holds. */
  predicate Reads(s: string, date: Date, hour: nat, minute: nat, second: nat) {
    && HasLayout(s)
    && Value(s[0..4]) == date.y && Value(s[5..7]) == date.m && Value(s[8..10]) == date.d
    && Value(s[11..13]) == hour && Value(s[14..16]) == minute && Value(s[17..19]) == second
  }

  lemma ReadsLayout(date: Date, hour: nat, minute: nat, second: nat)
    requires date.y < 10000 && date.m < 100 && date.d < 100 && hour < 100 && minute < 100 && second < 100
    ensures Reads(Layout(date, hour, minute, second), date, hour, minute, second)
  {
    var s := Layout(date, hour, minute, second);
    assert Pow10(2) == 100 && Pow10(4) == 100 * Pow10(2);
    assert s[0..4] == Padded(date.y, 4);
    assert s[5..7] == Padded(date.m, 2);
    assert s[8..10] == Padded(date.d, 2);
    assert s[11..13] == Padded(hour, 2);
    assert s[14..16] == Padded(minute, 2);
    assert s[17..19] == Padded(second, 2);
    PaddedValue(date.y, 4);
    PaddedValue(date.m, 2);
    PaddedValue(date.d, 2);
    PaddedValue(hour, 2);
    PaddedValue(minute, 2);
    PaddedValue(second, 2);
  }

  lemma FieldsParse(s: string, date: Date, hour: nat, minute: nat, second: nat)
    requires IsDate(date) && hour < 24 && minute < 60 && second < 60
    requires Reads(s, date, hour, minute, second)
    ensures DayOf(date) < DAYS
    ensures ParseTimestamp(s) == Some(InstantOf(DayOf(date), hour * 3600 + minute * 60 + second))
  {
    DayBound(date);
  }

  lemma ClockSplits(second: nat)
    requires second < 86_400
    ensures second / 3600 < 24
    ensures second / 3600 * 3600 + second / 60 % 60 * 60 + second % 60 == second
  {
    assert second / 60 / 60 == second / 3600;
    assert second / 60 == second / 60 / 60 * 60 + second / 60 % 60;
  }

  /** The fields that Timestamp writes make up the whole second of the instant. */
  lemma TimestampReads(t: int) returns (date: Date, hour: nat, minute: nat, second: nat)
    requires IsInstant(t)
    ensures Reads(Timestamp(t), date, hour, minute, second)
    ensures IsDate(date) && hour < 24 && minute < 60 && second < 60
    ensures DayOf(date) == t / DAY
    ensures hour * 3600 + minute * 60 + second == t % DAY / SECOND
  {
    FloorSplits(t);
    var n := t % DAY / SECOND;
    ClockSplits(n);
    date, hour, minute, second := DateOf(t / DAY), n / 3600, n / 60 % 60, n % 60;
    ReadsLayout(date, hour, minute, second);
  }

  /** What is written is read back as the instant floored to the second. */
  lemma RoundTrip(t: int)
    requires IsInstant(t)
    ensures ParseTimestamp(Timestamp(t)) == Some(Floor(t))
  {
    var date, hour, minute, second := TimestampReads(t);
    FieldsParse(Timestamp(t), date, hour, minute, second);
    FloorSplits(t);
  }
}
