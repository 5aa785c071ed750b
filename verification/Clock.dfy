/**
 The part of Go's time package the archive code relies on: instants with a zone, the
 proleptic Gregorian calendar in both directions, and rounding of a duration.
 */
module Clock {
  datatype Zone = UTC | FixedZone(seconds: int)

  // An instant: Unix seconds and nanoseconds, shown on the clock of `zone`.
  datatype Time = Time(sec: int, nsec: int, zone: Zone)

  datatype Wall = Wall(year: int, month: int, day: int, hour: int, minute: int, second: int)

  const SECONDS_PER_DAY := 86400
  const EPOCH_DAYS := 719162            // days from 0001-01-01 to 1970-01-01
  const ZERO_SECONDS := -62135596800    // the zero time.Time, 0001-01-01T00:00:00Z
  const NANOS := 1_000_000_000

  const ZERO := Time(ZERO_SECONDS, 0, UTC)

  predicate IsZero(t: Time) { t.sec == ZERO_SECONDS && t.nsec == 0 }

  function ZoneSeconds(z: Zone): int { if z.UTC? then 0 else z.seconds }

  // time.Unix(sec, nsec); the location it would carry is never looked at.
  function Unix(sec: int, nsec: int): Time { Time(sec + nsec / NANOS, nsec % NANOS, UTC) }

  predicate IsLeap(y: int) { y % 4 == 0 && (y % 100 != 0 || y % 400 == 0) }

  // Days from 0001-01-01 to the first of January of year y.
  function DaysBeforeYear(y: int): int {
    var p := y - 1;
    365 * p + p / 4 - p / 100 + p / 400
  }

  // Days of a year before month m; m is 1 to 13.
  function DaysBeforeMonth(leap: bool, m: int): int
    requires 1 <= m <= 13
  {
    var common := [0, 31, 59, 90, 120, 151, 181, 212, 243, 273, 304, 334, 365][m - 1];
    common + if leap && m > 2 then 1 else 0
  }

  // The year that day number d (counted from 0001-01-01) falls in.
  function YearOf(d: int): (y: int)
    ensures DaysBeforeYear(y) <= d < DaysBeforeYear(y + 1)
  {
    YearFrom(if d >= 0 then d / 366 + 1 else d / 365, d)
  }

  function YearFrom(y: int, d: int): (r: int)
    requires DaysBeforeYear(y) <= d
    ensures DaysBeforeYear(r) <= d < DaysBeforeYear(r + 1)
    decreases d - DaysBeforeYear(y)
  {
    if d < DaysBeforeYear(y + 1) then y else YearFrom(y + 1, d)
  }

  function MonthFrom(leap: bool, m: int, yday: int): (r: int)
    requires 1 <= m <= 12 && DaysBeforeMonth(leap, m) <= yday < DaysBeforeMonth(leap, 13)
    ensures m <= r <= 12 && DaysBeforeMonth(leap, r) <= yday < DaysBeforeMonth(leap, r + 1)
    decreases 12 - m
  {
    if yday < DaysBeforeMonth(leap, m + 1) then m else MonthFrom(leap, m + 1, yday)
  }

  lemma YearLength(y: int)
    ensures DaysBeforeYear(y + 1) - DaysBeforeYear(y) == if IsLeap(y) then 366 else 365
  {
    assert y / 4 - (y - 1) / 4 == if y % 4 == 0 then 1 else 0;
    assert y / 100 - (y - 1) / 100 == if y % 100 == 0 then 1 else 0;
    assert y / 400 - (y - 1) / 400 == if y % 400 == 0 then 1 else 0;
    Multiples(y);
  }

  lemma Multiples(y: int)
    ensures y % 400 == 0 ==> y % 100 == 0
    ensures y % 100 == 0 ==> y % 4 == 0
  {
    if y % 400 == 0 {
      TimesHundred(y, 4 * (y / 400));
    }
    if y % 100 == 0 {
      TimesFour(y, 25 * (y / 100));
    }
  }

  lemma TimesHundred(y: int, k: int)
    requires y == 100 * k
    ensures y % 100 == 0
  {
  }

  lemma TimesFour(y: int, k: int)
    requires y == 4 * k
    ensures y % 4 == 0
  {
  }

  lemma DayParts(rest: int)
    requires 0 <= rest < SECONDS_PER_DAY
    ensures 0 <= rest / 3600 < 24 && 0 <= rest / 60 % 60 < 60 && 0 <= rest % 60 < 60
    ensures rest / 3600 * 3600 + rest / 60 % 60 * 60 + rest % 60 == rest
  {
    var m := rest / 60;
    assert rest == m * 60 + rest % 60;
    assert m == m / 60 * 60 + m % 60;
    assert rest == 3600 * (m / 60) + (m % 60 * 60 + rest % 60);
    assert rest / 3600 == m / 60;
  }

  lemma MonthLength(leap: bool, m: int)
    requires 1 <= m <= 12
    ensures 28 <= DaysBeforeMonth(leap, m + 1) - DaysBeforeMonth(leap, m) <= 31
  {
  }

  // What a clock in the zone of t shows at t.
  function WallClock(t: Time): (w: Wall)
    ensures 1 <= w.month <= 12 && 1 <= w.day <= 31
    ensures 0 <= w.hour < 24 && 0 <= w.minute < 60 && 0 <= w.second < 60
  {
    var shown := t.sec + ZoneSeconds(t.zone);
    var days, rest := shown / SECONDS_PER_DAY + EPOCH_DAYS, shown % SECONDS_PER_DAY;
    var year := YearOf(days);
    YearLength(year);
    var yday := days - DaysBeforeYear(year);
    var month := MonthFrom(IsLeap(year), 1, yday);
    MonthLength(IsLeap(year), month);
    DayParts(rest);
    Wall(year, month, yday - DaysBeforeMonth(IsLeap(year), month) + 1,
         rest / 3600, rest / 60 % 60, rest % 60)
  }

  // time.Date(..., time.UTC): out-of-range months, days and times of day carry over.
  function DateSeconds(w: Wall): int {
    var m := w.month - 1;
    var year, month := w.year + m / 12, m % 12 + 1;
    var days := DaysBeforeYear(year) + DaysBeforeMonth(IsLeap(year), month) + w.day - 1;
    (days - EPOCH_DAYS) * SECONDS_PER_DAY + w.hour * 3600 + w.minute * 60 + w.second
  }

  // Reading the wall clock and building the date again is the identity.
  lemma DateOfWallClock(t: Time)
    ensures DateSeconds(WallClock(t)) == t.sec + ZoneSeconds(t.zone)
  {
    hide ZoneSeconds, YearOf, MonthFrom, DaysBeforeYear, DaysBeforeMonth;
    DayParts((t.sec + ZoneSeconds(t.zone)) % SECONDS_PER_DAY);
    NormalDate(WallClock(t));
  }

  // The date of a month of the year needs no carry.
  lemma NormalDate(w: Wall)
    requires 1 <= w.month <= 12
    ensures DateSeconds(w) ==
            (DaysBeforeYear(w.year) + DaysBeforeMonth(IsLeap(w.year), w.month) + w.day - 1 - EPOCH_DAYS)
            * SECONDS_PER_DAY + w.hour * 3600 + w.minute * 60 + w.second
  {
  }

  // t.Sub(u) in nanoseconds, which saturates at the ends of int64.
  function Sub(t: Time, u: Time): int {
    var d := (t.sec - u.sec) * NANOS + t.nsec - u.nsec;
    if d > 0x7FFF_FFFF_FFFF_FFFF then 0x7FFF_FFFF_FFFF_FFFF
    else if d < -0x8000_0000_0000_0000 then -0x8000_0000_0000_0000
    else d
  }

  // d.Round(m): to the nearest multiple of m, halves away from zero.
  function Round(d: int, m: int): int
    requires m > 0
  {
    if d < 0 then -((-d + m / 2) / m * m) else (d + m / 2) / m * m
  }
}
