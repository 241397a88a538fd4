/**
 * Calendar arithmetic of lib/time.c: the Gregorian leap-year rule, the
 * lengths of years and months, the conversion of seconds since 1970-01-01
 * into a broken-down `struct tm` (leap seconds ignored), and the wrap check
 * of nanosleep's deadline.
 */
module Time {
  import opened MemLayout
  import opened Wrappers

  const SECONDS_PER_DAY: nat := 86400

  /** struct tm: every field is an `int`; tm_year counts from 1900 and tm_mon from 0. */
  datatype Tm = Tm(sec: int, min: int, hour: int, mday: int, mon: int, year: int, wday: int, yday: int)

  /** isleap: divisible by 4, except centuries not divisible by 400. */
  function IsLeap(year: int): (r: bool)
    ensures r <==> year % 400 == 0 || (year % 4 == 0 && year % 100 != 0)
  {
    Centuries(year);
    (year % 4 == 0) && !((year % 100 == 0) && (year % 400 != 0))
  }

  /** A multiple of 400 is a multiple of 100, and a multiple of 100 one of 4. */
  lemma Centuries(year: int)
    ensures year % 400 == 0 ==> year % 100 == 0
    ensures year % 100 == 0 ==> year % 4 == 0
  {
    var q4, r4 := year / 4, year % 4;
    var q100, r100 := year / 100, year % 100;
    var q400, r400 := year / 400, year % 400;
    assert year == 4 * q4 + r4 && 0 <= r4 < 4;
    assert year == 100 * q100 + r100 && 0 <= r100 < 100;
    assert year == 400 * q400 + r400 && 0 <= r400 < 400;
    if r400 == 0 {
      assert r100 == 100 * (4 * q400 - q100);
    }
    if r100 == 0 {
      assert r4 == 4 * (25 * q100 - q4);
    }
  }

  /** days_per_year. */
  function DaysPerYear(year: int): (d: int)
    ensures d == 365 || d == 366
    ensures d == 366 <==> IsLeap(year)
  {
    if IsLeap(year) then 366 else 365
  }

  /** The `days` table of days_per_month: month lengths of a common year. */
  const MonthTable: seq<int> := [31, 28, 31, 30, 31, 30, 31, 31, 30, 31, 30, 31]

  /** days_per_month, for a month index the table has. */
  function DaysPerMonth(year: int, month: int): (d: int)
    requires 0 <= month < 12
    ensures 28 <= d <= 31
    ensures month == 1 ==> (d == 29 <==> IsLeap(year)) && (d == 28 <==> !IsLeap(year))
    ensures month != 1 ==> d == 31 || d == 30
  {
    if IsLeap(year) && month == 1 then 29 else MonthTable[month]
  }

  /** Days in the months of `year` before month `m`. */
  function DaysBeforeMonth(year: int, m: int): int
    requires 0 <= m <= 12
  {
    if m == 0 then 0 else DaysBeforeMonth(year, m - 1) + DaysPerMonth(year, m - 1)
  }

  /** Days in the years from 1970 up to, not including, `year`. */
  function DaysBeforeYear(year: int): int
    requires year >= 1970
    decreases year
  {
    if year == 1970 then 0 else DaysBeforeYear(year - 1) + DaysPerYear(year - 1)
  }

  /** The twelve months of a year add up to its length. */
  lemma MonthsMakeYear(year: int)
    ensures DaysBeforeMonth(year, 12) == DaysPerYear(year)
  {
    var feb := DaysPerMonth(year, 1);
    assert DaysBeforeMonth(year, 1) == 31;
    assert DaysBeforeMonth(year, 2) == 31 + feb;
    assert DaysBeforeMonth(year, 3) == 62 + feb;
    assert DaysBeforeMonth(year, 4) == 92 + feb;
    assert DaysBeforeMonth(year, 5) == 123 + feb;
    assert DaysBeforeMonth(year, 6) == 153 + feb;
    assert DaysBeforeMonth(year, 7) == 184 + feb;
    assert DaysBeforeMonth(year, 8) == 215 + feb;
    assert DaysBeforeMonth(year, 9) == 245 + feb;
    assert DaysBeforeMonth(year, 10) == 276 + feb;
    assert DaysBeforeMonth(year, 11) == 306 + feb;
  }

  /** Later years start after the whole of every earlier year. */
  lemma {:induction false} YearsAscend(y1: int, y2: int)
    requires 1970 <= y1 < y2
    ensures DaysBeforeYear(y1) + DaysPerYear(y1) <= DaysBeforeYear(y2)
    decreases y2 - y1
  {
    if y1 + 1 < y2 {
      YearsAscend(y1, y2 - 1);
    }
  }

  /** A day count splits into a year and a day of that year in only one way. */
  lemma YearSplitUnique(y1: int, d1: int, y2: int, d2: int)
    requires y1 >= 1970 && 0 <= d1 < DaysPerYear(y1)
    requires y2 >= 1970 && 0 <= d2 < DaysPerYear(y2)
    requires DaysBeforeYear(y1) + d1 == DaysBeforeYear(y2) + d2
    ensures y1 == y2 && d1 == d2
  {
    if y1 < y2 {
      YearsAscend(y1, y2);
    } else if y2 < y1 {
      YearsAscend(y2, y1);
    }
  }

  /** Later months start after the whole of every earlier month. */
  lemma {:induction false} MonthsAscend(year: int, m1: int, m2: int)
    requires 0 <= m1 < m2 <= 12
    ensures DaysBeforeMonth(year, m1) + DaysPerMonth(year, m1) <= DaysBeforeMonth(year, m2)
    decreases m2 - m1
  {
    if m1 + 1 < m2 {
      MonthsAscend(year, m1, m2 - 1);
    }
  }

  /** A day of the year splits into a month and a day of that month in only one way. */
  lemma MonthSplitUnique(year: int, m1: int, d1: int, m2: int, d2: int)
    requires 0 <= m1 < 12 && 0 <= d1 < DaysPerMonth(year, m1)
    requires 0 <= m2 < 12 && 0 <= d2 < DaysPerMonth(year, m2)
    requires DaysBeforeMonth(year, m1) + d1 == DaysBeforeMonth(year, m2) + d2
    ensures m1 == m2 && d1 == d2
  {
    if m1 < m2 {
      MonthsAscend(year, m1, m2);
    } else if m2 < m1 {
      MonthsAscend(year, m2, m1);
    }
  }

  /** A leap year has 366 days: the rule's three cases. */
  lemma LeapExamples()
    ensures DaysPerYear(1972) == 366 && DaysPerYear(1900) == 365 && DaysPerYear(2000) == 366 && DaysPerYear(1970) == 365
  {
  }

  /**
   * epoch_to_tm: split `epoch` into days and seconds of the day, then walk
   * whole years from 1970 and whole months of the year found. The day count
   * lives in an `int` and `days + 4` is computed in `int`, so `epoch` is
   * bounded by the caller to keep both in range.
   */
  method EpochToTm(epoch: u64) returns (tm: Tm)
    requires epoch / SECONDS_PER_DAY <= INT_MAX - 4
    ensures 0 <= tm.sec < 60 && 0 <= tm.min < 60 && 0 <= tm.hour < 24
    ensures tm.hour * 3600 + tm.min * 60 + tm.sec == epoch % SECONDS_PER_DAY
    ensures tm.wday == (epoch / SECONDS_PER_DAY + 4) % 7
    ensures tm.year >= 70 && 0 <= tm.yday < DaysPerYear(tm.year + 1900)
    ensures DaysBeforeYear(tm.year + 1900) + tm.yday == epoch / SECONDS_PER_DAY
    ensures 0 <= tm.mon < 12 && 1 <= tm.mday <= DaysPerMonth(tm.year + 1900, tm.mon)
    ensures DaysBeforeMonth(tm.year + 1900, tm.mon) + tm.mday - 1 == tm.yday
  {
    var days := epoch / SECONDS_PER_DAY;
    var dsec := epoch % SECONDS_PER_DAY;
    var sec := dsec % 60;
    var min := (dsec % 3600) / 60;
    var hour := dsec / 3600;
    var wday := (days + 4) % 7;
    ClockSplit(dsec);

    var year := 1970;
    while days >= DaysPerYear(year)
      invariant year >= 1970 && 0 <= days
      invariant DaysBeforeYear(year) + days == epoch / SECONDS_PER_DAY
      decreases days
    {
      days := days - DaysPerYear(year);
      year := year + 1;
    }
    var yday := days;

    MonthsMakeYear(year);
    var month := 0;
    while days >= DaysPerMonth(year, month)
      invariant 0 <= month < 12 && 0 <= days
      invariant DaysBeforeMonth(year, month) + days == yday
      decreases days
    {
      days := days - DaysPerMonth(year, month);
      month := month + 1;
      if month == 12 {
        assert false;
      }
    }
    tm := Tm(sec, min, hour, days + 1, month, year - 1900, wday, yday);
  }

  /** The seconds of a day split into hours, minutes and seconds, each in range. */
  lemma ClockSplit(dsec: int)
    requires 0 <= dsec < SECONDS_PER_DAY
    ensures var sec, min, hour := dsec % 60, (dsec % 3600) / 60, dsec / 3600;
            0 <= sec < 60 && 0 <= min < 60 && 0 <= hour < 24 && hour * 3600 + min * 60 + sec == dsec
  {
    var h, r := dsec / 3600, dsec % 3600;
    assert dsec == 3600 * h + r && 0 <= r < 3600;
    var m, s := r / 60, r % 60;
    assert r == 60 * m + s && 0 <= s < 60;
    var q, t := dsec / 60, dsec % 60;
    assert dsec == 60 * q + t && 0 <= t < 60;
    assert t - s == 60 * (60 * h + m - q);
  }

  /**
   * The wrap check of nanosleep: the deadline `now + nanoseconds` is computed
   * in 64 bits and a deadline below `now` panics.
   */
  function SleepDeadline(now: u64, nanoseconds: u64): (r: Exit<u64>)
    ensures r.Panicked? <==> now + nanoseconds >= 0x1_0000_0000_0000_0000
    ensures r.Returned? ==> r.value == now + nanoseconds
  {
    var end := (now + nanoseconds) % 0x1_0000_0000_0000_0000;
    if end < now then Panicked else Returned(end)
  }
}
