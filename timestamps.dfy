/**
 The text form of `created_at`. SQLite's CURRENT_TIMESTAMP writes
 "YYYY-MM-DD HH:MM:SS"; the column is TEXT in practice, so every comparison
 on it is a string comparison (Strings.LexLe).
 */
module Timestamps {
  import opened Strings
  import opened Wrappers

  predicate IsDigit(c: char)
  {
    '0' <= c <= '9'
  }

  /** "YYYY-MM-DD": the shape of `date(...)` and of the filter's day bounds. */
  predicate IsDate(d: string)
  {
    |d| == 10 &&
    IsDigit(d[0]) && IsDigit(d[1]) && IsDigit(d[2]) && IsDigit(d[3]) && d[4] == '-' &&
    IsDigit(d[5]) && IsDigit(d[6]) && d[7] == '-' && IsDigit(d[8]) && IsDigit(d[9])
  }

  /** "HH:MM:SS" with hours 00-23 and minutes and seconds 00-59. */
  predicate IsClock(t: string)
  {
    |t| == 8 &&
    '0' <= t[0] <= '2' && IsDigit(t[1]) && (t[0] == '2' ==> t[1] <= '3') && t[2] == ':' &&
    '0' <= t[3] <= '5' && IsDigit(t[4]) && t[5] == ':' &&
    '0' <= t[6] <= '5' && IsDigit(t[7])
  }

  /** The shape CURRENT_TIMESTAMP produces: "YYYY-MM-DD HH:MM:SS". */
  predicate IsTimestamp(s: string)
  {
    |s| == 19 && IsDate(s[..10]) && s[10] == ' ' && IsClock(s[11..])
  }

  /** SQLite's `date(ts)` on a stored timestamp: its day part. The store only
      holds clock-made timestamps, so other shapes give NULL here. */
  function SqlDate(ts: string): Option<string>
  {
    if IsTimestamp(ts) then Some(ts[..10]) else None
  }

  const DayStart: string := " 00:00:00"
  const DayEnd: string := " 23:59:59"

  /** The date filter's test: `created_at BETWEEN from || ' 00:00:00' AND
      to || ' 23:59:59'`, both ends inclusive, in string order. */
  predicate InWindow(ts: string, from: string, to: string)
  {
    LexLe(from + DayStart, ts) && LexLe(ts, to + DayEnd)
  }

  /** Every time of day comes at or after the bound the filter appends to
      its first day... */
  lemma ClockAfterDayStart(t: string)
    requires IsClock(t)
    ensures LexLe(DayStart, " " + t)
  {
    var lo := "00:00:00";
    LexLePointwise(lo, t);
    assert DayStart == " " + lo;
    assert (" " + t)[1..] == t && DayStart[1..] == lo;
  }

  /** ...and at or before the bound it appends to its last day. */
  lemma ClockBeforeDayEnd(t: string)
    requires IsClock(t)
    ensures LexLe(" " + t, DayEnd)
  {
    var hi := "23:59:59";
    assert LexLe(t, hi) by {
      if t[0] == '2' && t[1] == '3' {
        LexLePointwise(t[2..], hi[2..]);
        assert t[1..][1..] == t[2..] && hi[1..][1..] == hi[2..];
      } else if t[0] == '2' {
        assert t[1] < hi[1];
      } else {
        assert t[0] < hi[0];
      }
    }
    assert (" " + t)[1..] == t && DayEnd[1..] == hi;
  }

  /** On well-formed input the filter works at day granularity: a timestamp
      is in the window exactly when its day lies between `from` and `to`,
      both included. */
  lemma {:induction false} WindowIsDayRange(ts: string, from: string, to: string)
    requires IsTimestamp(ts) && IsDate(from) && IsDate(to)
    ensures InWindow(ts, from, to) <==> LexLe(from, ts[..10]) && LexLe(ts[..10], to)
  {
    var day, rest := ts[..10], ts[10..];
    assert ts == day + rest;
    assert rest == " " + ts[11..];
    ClockAfterDayStart(ts[11..]);
    ClockBeforeDayEnd(ts[11..]);
    LexLeConcat(from, DayStart, day, rest);
    LexLeConcat(day, rest, to, DayEnd);
    LexLeReflexive(day);
    if from == day {
      LexLeReflexive(from);
    }
  }
}
