/**
 That the dates of Clock are the Gregorian calendar's.
 */
module Calendar {
  import opened Clock
  import opened ZipFormat
  import opened Bytes

  function DaysIn(year: int, month: int): int {
    if month == 2 then if (year % 4 == 0 && year % 100 != 0) || year % 400 == 0 then 29 else 28
    else if month in {4, 6, 9, 11} then 30
    else 31
  }

  function FirstOf(year: int, month: int): Wall { Wall(year, month, 1, 0, 0, 0) }

  // Each month begins as many days behind the one before as that has, in every year, and
  // December is followed by January of the next.
  lemma MonthsFollow(year: int, month: int)
    requires 1 <= month <= 12
    ensures DateSeconds(FirstOf(year, month + 1)) == DateSeconds(FirstOf(year, month)) + DaysIn(year, month) * 86400
    ensures DateSeconds(FirstOf(year, 13)) == DateSeconds(FirstOf(year + 1, 1))
  {
    hide DaysBeforeYear, DaysBeforeMonth, IsLeap;
    YearLength(year);
    MonthDays(year, month);
    NormalDate(FirstOf(year, month));
    NormalDate(FirstOf(year + 1, 1));
    if month < 12 {
      NormalDate(FirstOf(year, month + 1));
    }
  }

  lemma MonthDays(year: int, month: int)
    requires 1 <= month <= 12
    ensures DaysBeforeMonth(IsLeap(year), month + 1) ==
            DaysBeforeMonth(IsLeap(year), month) + DaysIn(year, month)
    ensures DaysBeforeMonth(IsLeap(year), 13) == if IsLeap(year) then 366 else 365
    ensures DaysBeforeMonth(IsLeap(year), 1) == DaysBeforeMonth(IsLeap(year + 1), 1) == 0
  {
  }

  // Twelve months are a year, and days and times of day count on from the first of the month.
  lemma PartsAddUp(w: Wall)
    ensures DateSeconds(w.(month := w.month + 12)) == DateSeconds(w.(year := w.year + 1))
    ensures DateSeconds(w) ==
            DateSeconds(FirstOf(w.year, w.month)) +
            (w.day - 1) * 86400 + w.hour * 3600 + w.minute * 60 + w.second
  {
    hide DaysBeforeYear, DaysBeforeMonth;
  }

  // Three fixed points: the Unix epoch, the start of the NTFS count and the zero time.
  lemma Epochs()
    ensures DateSeconds(FirstOf(1970, 1)) == 0
    ensures DateSeconds(FirstOf(1601, 1)) == -11644473600
    ensures ZERO == Time(DateSeconds(FirstOf(1, 1)), 0, UTC)
    ensures forall t :: IsZero(t) <==> t.sec == DateSeconds(FirstOf(1, 1)) && t.nsec == 0
  {
    FirstOfYear(1970, 719162);
    FirstOfYear(1601, 584388);
    FirstOfYear(1, 0);
  }

  lemma FirstOfYear(year: int, days: int)
    requires DaysBeforeYear(year) == days
    ensures DateSeconds(FirstOf(year, 1)) == (days - 719162) * 86400
  {
    hide DaysBeforeYear;
    NormalDate(FirstOf(year, 1));
  }

  // The difference of two times in nanoseconds, or the end of int64 that is nearest to it.
  lemma Difference(t: Time, u: Time)
    ensures var d := (t.sec - u.sec) * 1_000_000_000 + (t.nsec - u.nsec);
            && -0x8000_0000_0000_0000 <= Sub(t, u) < 0x8000_0000_0000_0000
            && (Sub(t, u) < d ==> Sub(t, u) == 0x7FFF_FFFF_FFFF_FFFF)
            && (d < Sub(t, u) ==> Sub(t, u) == -0x8000_0000_0000_0000)
  {
  }

  // A clock shows a date of the calendar, and the one that its time is.
  lemma ClockShows(t: Time)
    ensures var w := WallClock(t);
            && 1 <= w.month <= 12 && 1 <= w.day <= DaysIn(w.year, w.month)
            && 0 <= w.hour < 24 && 0 <= w.minute < 60 && 0 <= w.second < 60
            && DateSeconds(w) == t.sec + if t.zone.UTC? then 0 else t.zone.seconds
  {
    hide DaysBeforeYear, YearOf;
    DateOfWallClock(t);
  }

  // The bits of an MS-DOS date and time: years from 1980, and half seconds.
  lemma DosLayout(w: Wall)
    requires 1980 <= w.year <= 2107 && 1 <= w.month <= 12 && 1 <= w.day <= 31
    requires 0 <= w.hour < 24 && 0 <= w.minute < 60 && 0 <= w.second < 60
    ensures var (d, c) := PackDos(w);
            && d / 512 == w.year - 1980 && d / 32 % 16 == w.month && d % 32 == w.day
            && c / 2048 == w.hour && c / 32 % 64 == w.minute && c % 32 == w.second / 2
  {
    UnpackPacked(w);
  }

  lemma DosBits(d: uint16, c: uint16)
    ensures MsDosTimeToTime(d, c) ==
            Time(DateSeconds(Wall(1980 + d / 512, d / 32 % 16, d % 32, c / 2048, c / 32 % 64, c % 32 * 2)), 0, UTC)
  {
  }
}
