/** Calendar arithmetic behind pandas' `datetime64[ns]` values: a timestamp
    is a count of nanoseconds since 1970-01-01 00:00, a day is a count of
    days since 1970-01-01, both in the proleptic Gregorian calendar. */
module Calendar {

  const NanosPerDay: int := 86_400_000_000_000

  /** The calendar day a timestamp falls on (`Timestamp.date()`); floor
      division, so instants before 1970 fall on negative days. */
  function DayOf(nanos: int): int
  {
    nanos / NanosPerDay
  }

  /** Midnight at the start of `day`. */
  function StartOfDay(day: int): int
  {
    day * NanosPerDay
  }

  /** Midnight falls on its own day, and a timestamp lies between the
      midnight of its day and the next one. */
  lemma DayOfBounds(nanos: int)
    ensures StartOfDay(DayOf(nanos)) <= nanos < StartOfDay(DayOf(nanos) + 1)
  {
  }

  lemma DayOfStartOfDay(day: int)
    ensures DayOf(StartOfDay(day)) == day
  {
  }

  /** A timestamp is on or before `today` exactly when it is earlier than
      the midnight that ends `today`. */
  lemma OnOrBeforeIff(nanos: int, today: int)
    ensures DayOf(nanos) <= today <==> nanos < StartOfDay(today + 1)
  {
    DayOfBounds(nanos);
    if DayOf(nanos) > today {
      StartOfDayMonotonic(today + 1, DayOf(nanos));
    } else {
      StartOfDayMonotonic(DayOf(nanos) + 1, today + 1);
    }
  }

  lemma StartOfDayMonotonic(a: int, b: int)
    requires a <= b
    ensures StartOfDay(a) <= StartOfDay(b)
    ensures a < b ==> StartOfDay(a) < StartOfDay(b)
  {
    assert StartOfDay(b) - StartOfDay(a) == (b - a) * NanosPerDay;
  }

  /** `datetime64[ns]` holds a signed 64-bit count of nanoseconds; the
      days whose midnight it can hold run from 1677-09-22 to 2262-04-11. */
  const MinInt64: int := -0x8000_0000_0000_0000
  const MaxInt64: int := 0x7FFF_FFFF_FFFF_FFFF
  const MinStampDay: int := -106751
  const MaxStampDay: int := 106751

  predicate InStampRange(day: int)
  {
    MinStampDay <= day <= MaxStampDay
  }

  /** The range is exactly the days whose midnight fits in 64 bits. */
  lemma StampRangeIff(day: int)
    ensures InStampRange(day) <==> MinInt64 <= StartOfDay(day) <= MaxInt64
  {
    if day < MinStampDay {
      StartOfDayMonotonic(day, MinStampDay - 1);
    } else if day > MaxStampDay {
      StartOfDayMonotonic(MaxStampDay + 1, day);
    } else {
      StartOfDayMonotonic(MinStampDay, day);
      StartOfDayMonotonic(day, MaxStampDay);
    }
  }

  predicate IsLeapYear(y: int)
  {
    y % 4 == 0 && (y % 100 != 0 || y % 400 == 0)
  }

  function DaysInYear(y: int): int
  {
    if IsLeapYear(y) then 366 else 365
  }

  /** The day number of January 1 of year `y`. */
  function JanFirst(y: int): int
  {
    var p := y - 1;
    365 * p + p / 4 - p / 100 + p / 400 - 719162
  }

  /** January 1, 1970 is day 0. */
  lemma JanFirstEpoch()
    ensures JanFirst(1970) == 0
  {
  }

  /** One more multiple of `m` is passed exactly when the next number is a
      multiple of `m` (for the three periods of the leap-year rule). */
  lemma DivStep(a: int, m: int)
    requires m == 4 || m == 100 || m == 400
    ensures (a + 1) / m - a / m == if (a + 1) % m == 0 then 1 else 0
  {
    if m == 4 {
    } else if m == 100 {
    } else {
    }
  }

  /** Consecutive January firsts are a year's length apart, so `JanFirst`
      is the Gregorian calendar's. */
  lemma YearLength(y: int)
    ensures JanFirst(y + 1) - JanFirst(y) == DaysInYear(y)
  {
    var p := y - 1;
    DivStep(p, 4);
    DivStep(p, 100);
    DivStep(p, 400);
    var d4, d100, d400 := y / 4 - p / 4, y / 100 - p / 100, y / 400 - p / 400;
    assert JanFirst(y + 1) - JanFirst(y) == 365 + d4 - d100 + d400;
    assert d4 == (if y % 4 == 0 then 1 else 0);
    assert d100 == (if y % 100 == 0 then 1 else 0);
    assert d400 == (if y % 400 == 0 then 1 else 0);
    assert y % 400 == 0 ==> y % 100 == 0 by {
      if y % 400 == 0 {
        assert y == 400 * (y / 400);
        assert y == 100 * (4 * (y / 400));
      }
    }
    assert y % 100 == 0 ==> y % 4 == 0 by {
      if y % 100 == 0 {
        assert y == 100 * (y / 100);
        assert y == 4 * (25 * (y / 100));
      }
    }
  }

}
