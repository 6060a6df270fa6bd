/**
 `get_windows_time_since_epoch` (util_time.h): the system FILETIME, a
 count of 100-nanosecond ticks since 1601-01-01, turned into milliseconds
 since 1970-01-01. The clock reading is the parameter `ft`.
 */
module TimeUtil {
  import opened Common

  /** 100-nanosecond ticks from 1601-01-01 to 1970-01-01. */
  const EPOCH_DIFFERENCE: nat := 116444736000000000

  const TICKS_PER_MILLISECOND: nat := 10000
  const TICKS_PER_SECOND: nat := 10000000

  /** Days in the Gregorian year `y`. */
  function DaysInYear(y: int): nat
  {
    if (y % 4 == 0 && y % 100 != 0) || y % 400 == 0 then 366 else 365
  }

  /** Days from the start of year `from` to the start of year `to`. */
  function DaysBetween(from: int, to: int): nat
    decreases to - from
  {
    if to <= from then 0 else DaysInYear(from) + DaysBetween(from + 1, to)
  }

  /** Four consecutive years, one day each added up. */
  lemma FourYears(y: int)
    ensures DaysBetween(y, y + 4) == DaysInYear(y) + DaysInYear(y + 1) + DaysInYear(y + 2) + DaysInYear(y + 3)
  {
    assert DaysBetween(y + 3, y + 4) == DaysInYear(y + 3);
    assert DaysBetween(y + 2, y + 4) == DaysInYear(y + 2) + DaysBetween(y + 3, y + 4);
    assert DaysBetween(y + 1, y + 4) == DaysInYear(y + 1) + DaysBetween(y + 2, y + 4);
  }

  lemma {:induction false} DaysBetweenSplit(a: int, b: int, c: int)
    requires a <= b <= c
    ensures DaysBetween(a, c) == DaysBetween(a, b) + DaysBetween(b, c)
    decreases b - a
  {
    if a < b {
      DaysBetweenSplit(a + 1, b, c);
    }
  }

  /** A four-year group starting the year after a multiple of 4 has one leap day, unless it ends in 1700, 1800 or 1900. */
  lemma GroupDays(y: int)
    requires y % 4 == 1 && 1601 <= y < 1969
    ensures DaysBetween(y, y + 4) == if y == 1697 || y == 1797 || y == 1897 then 1460 else 1461
  {
    FourYears(y);
    assert DaysInYear(y) == 365 && DaysInYear(y + 1) == 365 && DaysInYear(y + 2) == 365;
    if y == 1697 || y == 1797 || y == 1897 {
      assert DaysInYear(y + 3) == 365;
    } else {
      assert (y + 3) % 4 == 0 && (y + 3) % 100 != 0;
    }
  }

  /** 1601 to 1970: 369 years, of which 89 are leap years (1700, 1800 and 1900 are not). */
  lemma {:induction false} DaysFrom1601To1970()
    ensures DaysBetween(1601, 1970) == 134774
  {
    // Four-year groups 1601-1604, …, 1965-1968; the groups ending in 1700, 1800 and 1900 lack a leap day.
    var y := 1601;
    var groups := 0;
    var short := 0;
    while y < 1969
      invariant 1601 <= y <= 1969 && y == 1601 + 4 * groups && y % 4 == 1
      invariant short == (if y > 1900 then 3 else if y > 1800 then 2 else if y > 1700 then 1 else 0)
      invariant DaysBetween(1601, y) == 1461 * groups - short
      decreases 1969 - y
    {
      DaysBetweenSplit(1601, y, y + 4);
      GroupDays(y);
      if y == 1697 || y == 1797 || y == 1897 {
        short := short + 1;
      }
      groups := groups + 1;
      y := y + 4;
    }
    DaysBetweenSplit(1601, 1969, 1970);
    assert DaysBetween(1969, 1970) == 365;
  }

  /** The constant is the days from 1601 to 1970 in seconds, in 100-nanosecond ticks. */
  lemma EpochDifferenceIsCalendar()
    ensures EPOCH_DIFFERENCE == DaysBetween(1601, 1970) * 86400 * TICKS_PER_SECOND
    ensures EPOCH_DIFFERENCE == 11644473600 * TICKS_PER_SECOND
  {
    DaysFrom1601To1970();
  }

  /**
   Milliseconds since 1970-01-01: the tick difference in `uint64_t`, then
   whole milliseconds rounded down. A reading before 1970 wraps to a huge
   count.
   */
  function MillisSinceEpoch(ft: u64): (r: u64)
    ensures ft >= EPOCH_DIFFERENCE ==> r * TICKS_PER_MILLISECOND <= ft - EPOCH_DIFFERENCE < (r + 1) * TICKS_PER_MILLISECOND
    ensures ft < EPOCH_DIFFERENCE ==>
      r * TICKS_PER_MILLISECOND <= ft - EPOCH_DIFFERENCE + TWO_64 < (r + 1) * TICKS_PER_MILLISECOND
  {
    Sub64(ft, EPOCH_DIFFERENCE) / TICKS_PER_MILLISECOND
  }

  /** From 1970 on, a later reading never gives an earlier time. */
  lemma MillisMonotone(a: u64, b: u64)
    requires EPOCH_DIFFERENCE <= a <= b
    ensures MillisSinceEpoch(a) <= MillisSinceEpoch(b)
  {
  }

  /** Every reading before 1970 lands above every reading after it. */
  lemma MillisWrapsAbove(early: u64, late: u64)
    requires early < EPOCH_DIFFERENCE <= late
    ensures MillisSinceEpoch(late) <= MillisSinceEpoch(early)
  {
  }
}
