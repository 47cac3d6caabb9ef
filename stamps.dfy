/** The server clock reading and its `strftime("%Y%m%d_%H%M%S")` rendering,
    which the storage scheme uses as the time part of every filename. */
module Stamps {
  import opened Strings

  /** A reading of the server's local clock (a naive `datetime`). */
  datatype DateTime = DateTime(year: int, month: int, day: int,
                               hour: int, minute: int, second: int, microsecond: int)
  {
    /** The range a `datetime` value can hold. */
    predicate Valid()
    {
      && 1 <= year <= 9999
      && 1 <= month <= 12
      && 1 <= day <= DaysInMonth(year, month)
      && 0 <= hour < 24 && 0 <= minute < 60 && 0 <= second < 60
      && 0 <= microsecond < 1000000
    }
  }

  predicate IsLeap(y: int)
  {
    y % 4 == 0 && (y % 100 != 0 || y % 400 == 0)
  }

  function DaysInMonth(y: int, m: int): (n: int)
    requires 1 <= m <= 12
    ensures 28 <= n <= 31
  {
    if m == 2 then (if IsLeap(y) then 29 else 28)
    else if m == 4 || m == 6 || m == 9 || m == 11 then 30
    else 31
  }

  // ---------------------------------------------------------------------
  // Chronology: a count of seconds, independent of any text rendering.

  /** Days in the proleptic Gregorian calendar before January 1 of `y`. */
  function DaysBeforeYear(y: int): int
    requires y >= 1
  {
    var p := y - 1;
    365 * p + p / 4 - p / 100 + p / 400
  }

  /** Days of year `y` before the first day of month `m` (`m == 13` gives the
      length of the year). */
  function DaysBeforeMonth(y: int, m: int): int
    requires 1 <= m <= 13
    decreases m
  {
    if m == 1 then 0 else DaysBeforeMonth(y, m - 1) + DaysInMonth(y, m - 1)
  }

  /** The day number of the date (January 1 of year 1 is day 1). */
  function DayNumber(t: DateTime): int
    requires t.Valid()
  {
    DaysBeforeYear(t.year) + DaysBeforeMonth(t.year, t.month) + t.day
  }

  /** Whole seconds elapsed since the start of the calendar; the fraction of
      a second is not counted. */
  function Seconds(t: DateTime): int
    requires t.Valid()
  {
    DayNumber(t) * 86400 + t.hour * 3600 + t.minute * 60 + t.second
  }

  // ---------------------------------------------------------------------
  // The text rendering.

  function Pow10(w: nat): (r: nat)
    ensures r > 0
  {
    if w == 0 then 1 else 10 * Pow10(w - 1)
  }

  function DigitChar(d: nat): (c: char)
    requires d < 10
    ensures '0' <= c <= '9'
  {
    (48 + d) as char
  }

  /** `n` in decimal, zero-padded on the left to `width` digits (`%04d`,
      `%02d`). */
  function Decimal(n: nat, width: nat): (r: string)
    requires n < Pow10(width)
    ensures |r| == width
    ensures forall i :: 0 <= i < |r| ==> '0' <= r[i] <= '9'
  {
    if width == 0 then [] else Decimal(n / 10, width - 1) + [DigitChar(n % 10)]
  }

  /** `strftime("%Y%m%d_%H%M%S")`: the microseconds are dropped. */
  function Stamp(t: DateTime): (r: string)
    requires t.Valid()
    ensures |r| == 15 && r[8] == '_'
  {
    Decimal(t.year, 4) + Decimal(t.month, 2) + Decimal(t.day, 2) + "_"
      + Decimal(t.hour, 2) + Decimal(t.minute, 2) + Decimal(t.second, 2)
  }

  /** Eight digits, `_`, six digits. */
  predicate StampShaped(s: string)
  {
    |s| == 15 && s[8] == '_' && forall i :: 0 <= i < 15 && i != 8 ==> '0' <= s[i] <= '9'
  }

  lemma StampShape(t: DateTime)
    requires t.Valid()
    ensures StampShaped(Stamp(t))
  {
    var s := Stamp(t);
    var ymd := Decimal(t.year, 4) + Decimal(t.month, 2) + Decimal(t.day, 2);
    var hms := Decimal(t.hour, 2) + Decimal(t.minute, 2) + Decimal(t.second, 2);
    assert s == ymd + "_" + hms;
    forall i | 0 <= i < 15 && i != 8 ensures '0' <= s[i] <= '9' {
      if i < 8 {
        assert s[i] == ymd[i];
      } else {
        assert s[i] == hms[i - 9];
      }
    }
  }

  // ---------------------------------------------------------------------
  // Fixed-width decimal order.

  lemma {:induction false} DecimalOrder(a: nat, b: nat, w: nat)
    requires a < Pow10(w) && b < Pow10(w)
    ensures Below(Decimal(a, w), Decimal(b, w)) <==> a < b
    ensures Decimal(a, w) == Decimal(b, w) <==> a == b
    decreases w
  {
    if w == 0 {
      assert Decimal(a, w) == [] == Decimal(b, w);
    } else {
      var da, db := Decimal(a / 10, w - 1), Decimal(b / 10, w - 1);
      var ca, cb := [DigitChar(a % 10)], [DigitChar(b % 10)];
      DecimalOrder(a / 10, b / 10, w - 1);
      BelowFixedWidth(da, db, ca, cb);
      ConcatSplit(da, db, ca, cb);
      assert Below(ca, cb) <==> a % 10 < b % 10 by {
        assert ca[1..] == [] && cb[1..] == [];
      }
      assert ca == cb <==> a % 10 == b % 10 by {
        if ca == cb { assert ca[0] == cb[0]; }
      }
    }
  }

  // ---------------------------------------------------------------------
  // The two orders agree.

  /** Chronological order at the granularity of the stamp, as the tuple
      (year, month, day, hour, minute, second). */
  predicate SecondBefore(t1: DateTime, t2: DateTime)
  {
    || t1.year < t2.year
    || (t1.year == t2.year && t1.month < t2.month)
    || (t1.year == t2.year && t1.month == t2.month && t1.day < t2.day)
    || (t1.year == t2.year && t1.month == t2.month && t1.day == t2.day && t1.hour < t2.hour)
    || (t1.year == t2.year && t1.month == t2.month && t1.day == t2.day && t1.hour == t2.hour
        && t1.minute < t2.minute)
    || (t1.year == t2.year && t1.month == t2.month && t1.day == t2.day && t1.hour == t2.hour
        && t1.minute == t2.minute && t1.second < t2.second)
  }

  predicate SameSecond(t1: DateTime, t2: DateTime)
  {
    t1.year == t2.year && t1.month == t2.month && t1.day == t2.day
    && t1.hour == t2.hour && t1.minute == t2.minute && t1.second == t2.second
  }

  /** The rendering compares like the tuple it encodes. */
  lemma StampTupleOrder(t1: DateTime, t2: DateTime)
    requires t1.Valid() && t2.Valid()
    ensures Below(Stamp(t1), Stamp(t2)) <==> SecondBefore(t1, t2)
    ensures Stamp(t1) == Stamp(t2) <==> SameSecond(t1, t2)
  {
    assert Pow10(2) == 100 && Pow10(4) == 10000;
    var y1, y2 := Decimal(t1.year, 4), Decimal(t2.year, 4);
    var mo1, mo2 := Decimal(t1.month, 2), Decimal(t2.month, 2);
    var d1, d2 := Decimal(t1.day, 2), Decimal(t2.day, 2);
    var h1, h2 := Decimal(t1.hour, 2), Decimal(t2.hour, 2);
    var mi1, mi2 := Decimal(t1.minute, 2), Decimal(t2.minute, 2);
    var s1, s2 := Decimal(t1.second, 2), Decimal(t2.second, 2);
    DecimalOrder(t1.year, t2.year, 4);
    DecimalOrder(t1.month, t2.month, 2);
    DecimalOrder(t1.day, t2.day, 2);
    DecimalOrder(t1.hour, t2.hour, 2);
    DecimalOrder(t1.minute, t2.minute, 2);
    DecimalOrder(t1.second, t2.second, 2);
    // Peel the left-nested concatenation one fixed-width field at a time.
    BelowFixedWidth(y1, y2, mo1, mo2);
    ConcatSplit(y1, y2, mo1, mo2);
    BelowFixedWidth(y1 + mo1, y2 + mo2, d1, d2);
    ConcatSplit(y1 + mo1, y2 + mo2, d1, d2);
    BelowFixedWidth(y1 + mo1 + d1, y2 + mo2 + d2, "_", "_");
    ConcatSplit(y1 + mo1 + d1, y2 + mo2 + d2, "_", "_");
    BelowIrreflexive("_");
    BelowFixedWidth(y1 + mo1 + d1 + "_", y2 + mo2 + d2 + "_", h1, h2);
    ConcatSplit(y1 + mo1 + d1 + "_", y2 + mo2 + d2 + "_", h1, h2);
    BelowFixedWidth(y1 + mo1 + d1 + "_" + h1, y2 + mo2 + d2 + "_" + h2, mi1, mi2);
    ConcatSplit(y1 + mo1 + d1 + "_" + h1, y2 + mo2 + d2 + "_" + h2, mi1, mi2);
    BelowFixedWidth(y1 + mo1 + d1 + "_" + h1 + mi1, y2 + mo2 + d2 + "_" + h2 + mi2, s1, s2);
    ConcatSplit(y1 + mo1 + d1 + "_" + h1 + mi1, y2 + mo2 + d2 + "_" + h2 + mi2, s1, s2);
  }

  lemma DaysBeforeMonthYear(y: int)
    ensures DaysBeforeMonth(y, 13) == if IsLeap(y) then 366 else 365
  {
    var feb := if IsLeap(y) then 29 else 28;
    assert DaysBeforeMonth(y, 2) == 31;
    assert DaysBeforeMonth(y, 3) == 31 + feb;
    assert DaysBeforeMonth(y, 4) == 62 + feb;
    assert DaysBeforeMonth(y, 5) == 92 + feb;
    assert DaysBeforeMonth(y, 6) == 123 + feb;
    assert DaysBeforeMonth(y, 7) == 153 + feb;
    assert DaysBeforeMonth(y, 8) == 184 + feb;
    assert DaysBeforeMonth(y, 9) == 215 + feb;
    assert DaysBeforeMonth(y, 10) == 245 + feb;
    assert DaysBeforeMonth(y, 11) == 276 + feb;
    assert DaysBeforeMonth(y, 12) == 306 + feb;
  }

  /** Months fill the year in order: a later month starts no earlier than an
      earlier month ends. */
  lemma {:induction false} DaysBeforeMonthMonotone(y: int, m1: int, m2: int)
    requires 1 <= m1 < m2 <= 13
    ensures DaysBeforeMonth(y, m1) + DaysInMonth(y, m1) <= DaysBeforeMonth(y, m2)
    decreases m2 - m1
  {
    if m1 + 1 < m2 {
      DaysBeforeMonthMonotone(y, m1, m2 - 1);
    }
  }

  lemma DaysBeforeMonthNonNegative(y: int, m: int)
    requires 1 <= m <= 13
    ensures DaysBeforeMonth(y, m) >= 0
    decreases m
  {
    if m > 1 { DaysBeforeMonthNonNegative(y, m - 1); }
  }

  /** How many multiples of `k` the step from `n - 1` to `n` passes. */
  lemma MultipleSteps(n: int)
    ensures n / 4 - (n - 1) / 4 == if n % 4 == 0 then 1 else 0
    ensures n / 100 - (n - 1) / 100 == if n % 100 == 0 then 1 else 0
    ensures n / 400 - (n - 1) / 400 == if n % 400 == 0 then 1 else 0
    ensures n % 100 == 0 ==> n % 4 == 0
    ensures n % 400 == 0 ==> n % 100 == 0
  {
  }

  /** Consecutive years are adjacent: a year's day count is its length. */
  lemma NextYear(y: int)
    requires y >= 1
    ensures DaysBeforeYear(y + 1) == DaysBeforeYear(y) + DaysBeforeMonth(y, 13)
  {
    DaysBeforeMonthYear(y);
    MultipleSteps(y);
  }

  /** A year ends no later than any later year starts. */
  lemma {:induction false} YearsInOrder(y1: int, y2: int)
    requires 1 <= y1 < y2
    ensures DaysBeforeYear(y1) + DaysBeforeMonth(y1, 13) <= DaysBeforeYear(y2)
    decreases y2 - y1
  {
    NextYear(y1);
    if y1 + 1 < y2 {
      YearsInOrder(y1 + 1, y2);
      DaysBeforeMonthNonNegative(y1 + 1, 13);
    }
  }

  /** Day numbers follow calendar order. */
  lemma DayNumberOrder(t1: DateTime, t2: DateTime)
    requires t1.Valid() && t2.Valid()
    requires || t1.year < t2.year
             || (t1.year == t2.year && t1.month < t2.month)
             || (t1.year == t2.year && t1.month == t2.month && t1.day < t2.day)
    ensures DayNumber(t1) < DayNumber(t2)
  {
    DaysBeforeMonthNonNegative(t2.year, t2.month);
    if t1.year < t2.year {
      DaysBeforeMonthMonotone(t1.year, t1.month, 13);
      YearsInOrder(t1.year, t2.year);
    } else if t1.month < t2.month {
      DaysBeforeMonthMonotone(t1.year, t1.month, t2.month);
    }
  }

  /** String order of two stamps is the order of the clock readings they
      render, truncated to the whole second: the greatest filename of a host carries its greatest clock
      reading, which is its last post only while the wall clock never steps
      back. */
  lemma StampOrder(t1: DateTime, t2: DateTime)
    requires t1.Valid() && t2.Valid()
    ensures Below(Stamp(t1), Stamp(t2)) <==> Seconds(t1) < Seconds(t2)
    ensures Stamp(t1) == Stamp(t2) <==> Seconds(t1) == Seconds(t2)
  {
    StampTupleOrder(t1, t2);
    var sameDay := t1.year == t2.year && t1.month == t2.month && t1.day == t2.day;
    if !sameDay {
      if || t1.year < t2.year
         || (t1.year == t2.year && t1.month < t2.month)
         || (t1.year == t2.year && t1.month == t2.month && t1.day < t2.day) {
        DayNumberOrder(t1, t2);
      } else {
        DayNumberOrder(t2, t1);
      }
    }
  }
}
