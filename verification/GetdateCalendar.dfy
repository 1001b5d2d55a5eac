/** The arithmetic around the date parser: the difference of two broken-down
    times, and the checks that keep results inside `time_t`. */
module GetdateCalendar {
  import opened GetdateGrammar

  const TM_YEAR_BASE := 1900

  /** `struct tm`: `year` counts from 1900 and `yday` from January 1. */
  datatype Tm = Tm(year: int, yday: int, hour: int, min: int, sec: int)

  /// The difference of two times
  /// ---------------------------

  // `>>` on a signed integer is floor division, as Dafny's `/` is for positive divisors.
  function FloorDiv(a: int, b: int): int
    requires b > 0
  {
    a / b
  }

  // `& 3` on a two's complement integer.
  function Low2(a: int): int
  {
    a % 4
  }

  function Fours(year: int): int
  {
    FloorDiv(year, 4) + FloorDiv(TM_YEAR_BASE, 4) - if Low2(year) == 0 then 1 else 0
  }

  function Hundreds(fours: int): int
  {
    TruncDiv(fours, 25) - if TruncMod(fours, 25) < 0 then 1 else 0
  }

  function LeapDays(a: Tm, b: Tm): int
  {
    var a4, b4 := Fours(a.year), Fours(b.year);
    var a100, b100 := Hundreds(a4), Hundreds(b4);
    var a400, b400 := FloorDiv(a100, 4), FloorDiv(b100, 4);
    (a4 - b4) - (a100 - b100) + (a400 - b400)
  }

  function Days(a: Tm, b: Tm): int
  {
    365 * (a.year - b.year) + LeapDays(a, b) + (a.yday - b.yday)
  }

  /** tm_diff: the seconds from `b` to `a`. */
  function TmDiff(a: Tm, b: Tm): int
  {
    60 * (60 * (24 * Days(a, b) + (a.hour - b.hour)) + (a.min - b.min)) + (a.sec - b.sec)
  }

  /// Counting year by year
  /// ---------------------

  predicate IsLeap(y: int)
  {
    y % 4 == 0 && (y % 100 != 0 || y % 400 == 0)
  }

  function YearLength(y: int): int
  {
    if IsLeap(y) then 366 else 365
  }

  /** The days from January 1, 1900 to January 1 of year `y`. */
  function DaysBefore(y: int): int
    decreases if y < TM_YEAR_BASE then TM_YEAR_BASE - y else y - TM_YEAR_BASE
  {
    if y == TM_YEAR_BASE then 0
    else if y > TM_YEAR_BASE then DaysBefore(y - 1) + YearLength(y - 1)
    else DaysBefore(y + 1) - YearLength(y)
  }

  /** The seconds from the start of 1900 to `t`. */
  function SecondsOf(t: Tm): int
  {
    60 * (60 * (24 * (DaysBefore(t.year + TM_YEAR_BASE) + t.yday) + t.hour) + t.min) + t.sec
  }

  // Leap years before `y`, up to a constant.
  function LeapsBefore(y: int): int
  {
    FloorDiv(y - 1, 4) - FloorDiv(y - 1, 100) + FloorDiv(y - 1, 400)
  }

  lemma MultiplesStep(y: int)
    ensures FloorDiv(y, 4) == FloorDiv(y - 1, 4) + if y % 4 == 0 then 1 else 0
    ensures FloorDiv(y, 100) == FloorDiv(y - 1, 100) + if y % 100 == 0 then 1 else 0
    ensures FloorDiv(y, 400) == FloorDiv(y - 1, 400) + if y % 400 == 0 then 1 else 0
  {}

  lemma MultiplesNest(y: int)
    ensures (y % 400 == 0 ==> y % 100 == 0) && (y % 100 == 0 ==> y % 4 == 0)
  {}

  lemma LeapsStep(y: int)
    ensures LeapsBefore(y + 1) == LeapsBefore(y) + if IsLeap(y) then 1 else 0
  {
    hide FloorDiv;
    MultiplesStep(y);
    MultiplesNest(y);
  }

  lemma {:induction false} DaysClosed(y: int)
    ensures DaysBefore(y) == 365 * (y - TM_YEAR_BASE) + LeapsBefore(y) - LeapsBefore(TM_YEAR_BASE)
    decreases if y < TM_YEAR_BASE then TM_YEAR_BASE - y else y - TM_YEAR_BASE
  {
    if y > TM_YEAR_BASE {
      DaysClosed(y - 1);
      LeapsStep(y - 1);
    } else if y < TM_YEAR_BASE {
      DaysClosed(y + 1);
      LeapsStep(y);
    }
  }

  lemma FoursFloor(year: int)
    ensures Fours(year) == FloorDiv(year + TM_YEAR_BASE - 1, 4)
  {}

  lemma HundredsFloor(y: int)
    ensures Hundreds(FloorDiv(y - 1, 4)) == FloorDiv(y - 1, 100)
    ensures FloorDiv(FloorDiv(y - 1, 100), 4) == FloorDiv(y - 1, 400)
  {}

  lemma LeapDaysCount(a: Tm, b: Tm)
    ensures LeapDays(a, b) == LeapsBefore(a.year + TM_YEAR_BASE) - LeapsBefore(b.year + TM_YEAR_BASE)
  {
    FoursFloor(a.year);
    FoursFloor(b.year);
    HundredsFloor(a.year + TM_YEAR_BASE);
    HundredsFloor(b.year + TM_YEAR_BASE);
  }

  /** The closed formula counts the same seconds as the Gregorian calendar, in every year. */
  lemma TmDiffCounts(a: Tm, b: Tm)
    ensures TmDiff(a, b) == SecondsOf(a) - SecondsOf(b)
  {
    hide LeapDays, LeapsBefore, DaysBefore;
    LeapDaysCount(a, b);
    DaysClosed(a.year + TM_YEAR_BASE);
    DaysClosed(b.year + TM_YEAR_BASE);
  }

  /** Differences are antisymmetric and add up along any third time. */
  lemma TmDiffAdds(a: Tm, b: Tm, c: Tm)
    ensures TmDiff(a, b) == -TmDiff(b, a)
    ensures TmDiff(a, c) == TmDiff(a, b) + TmDiff(b, c)
  {
    TmDiffCounts(a, b);
    TmDiffCounts(b, a);
    TmDiffCounts(b, c);
    TmDiffCounts(a, c);
  }

  /// Machine integers
  /// ----------------

  /** Half the number of values of a signed integer of `width` bits. */
  function Half(width: nat): (h: int)
    requires width > 0
    ensures h > 0
  {
    if width == 1 then 1 else 2 * Half(width - 1)
  }

  predicate Fits(x: int, h: int)
  {
    -h <= x < h
  }

  // The result of two's complement arithmetic.
  function Wrap(x: int, h: int): (r: int)
    requires h > 0
    ensures Fits(r, h)
  {
    (x + h) % (2 * h) - h
  }

  lemma Multiples(n: int, q: int)
    requires n > 0
    ensures q >= 1 ==> n * q >= n
    ensures q >= 2 ==> n * q >= 2 * n
    ensures q <= -1 ==> n * q <= -n
    ensures q <= -2 ==> n * q <= -2 * n
  {
    if q >= 2 {
      MulOrder(n, 2, q);
    } else if q <= -2 {
      MulOrder(n, q, -2);
    }
  }

  lemma MulOrder(n: int, p: int, q: int)
    requires n > 0 && p <= q
    ensures n * p <= n * q
  {}

  // Wrapping moves a number by whole laps, and by none if it is in range.
  lemma WrapLaps(x: int, h: int) returns (q: int)
    requires h > 0
    ensures x - Wrap(x, h) == 2 * h * q
    ensures Fits(x, h) <==> q == 0
    ensures q >= 1 ==> x - Wrap(x, h) >= 2 * h
    ensures q >= 2 ==> x - Wrap(x, h) >= 4 * h
    ensures q <= -1 ==> x - Wrap(x, h) <= -2 * h
    ensures q <= -2 ==> x - Wrap(x, h) <= -4 * h
  {
    q := (x + h) / (2 * h);
    Multiples(2 * h, q);
  }

  lemma WrapFits(x: int, h: int)
    requires h > 0 && Fits(x, h)
    ensures Wrap(x, h) == x
  {
    var q := WrapLaps(x, h);
  }

  // One lap is enough for a sum of two numbers in range.
  lemma WrapOnce(x: int, h: int)
    requires h > 0 && -2 * h <= x <= 2 * h
    ensures Wrap(x, h) == if x < -h then x + 2 * h else if x >= h then x - 2 * h else x
  {
    var q := WrapLaps(x, h);
  }

  const INT_HALF := 0x8000_0000

  predicate IsNormal(t: Tm)
  {
    0 <= t.yday <= 365 && 0 <= t.hour <= 23 && 0 <= t.min <= 59 && 0 <= t.sec <= 60
  }

  // What tm_diff computes from one year.
  predicate FoursFit(year: int)
  {
    var a4 := FloorDiv(year, 4);
    var a100 := TruncDiv(Fours(year), 25);
    && Fits(a4, INT_HALF) && Fits(a4 + FloorDiv(TM_YEAR_BASE, 4), INT_HALF) && Fits(Fours(year), INT_HALF)
    && Fits(a100, INT_HALF) && Fits(TruncMod(Fours(year), 25), INT_HALF) && Fits(Hundreds(Fours(year)), INT_HALF)
    && Fits(FloorDiv(Hundreds(Fours(year)), 4), INT_HALF)
  }

  /** For times less than 68 years apart, nothing that tm_diff computes leaves a 32-bit int. */
  lemma TmDiffFits(a: Tm, b: Tm)
    requires IsNormal(a) && IsNormal(b) && Fits(a.year, INT_HALF) && Fits(b.year, INT_HALF)
    requires -67 <= a.year - b.year <= 67
    ensures forall t <- [a, b] :: FoursFit(t.year)
    ensures var a4, b4 := Fours(a.year), Fours(b.year);
      var a100, b100 := Hundreds(a4), Hundreds(b4);
      && Fits(a4 - b4, INT_HALF) && Fits(a100 - b100, INT_HALF) && Fits((a4 - b4) - (a100 - b100), INT_HALF)
      && Fits(FloorDiv(a100, 4) - FloorDiv(b100, 4), INT_HALF) && Fits(LeapDays(a, b), INT_HALF)
    ensures var years := a.year - b.year;
      && Fits(365 * years, INT_HALF) && Fits(365 * years + LeapDays(a, b), INT_HALF)
      && Fits(a.yday - b.yday, INT_HALF) && Fits(Days(a, b), INT_HALF)
    ensures Fits(a.hour - b.hour, INT_HALF) && Fits(a.min - b.min, INT_HALF) && Fits(a.sec - b.sec, INT_HALF)
    ensures var hours := 24 * Days(a, b) + (a.hour - b.hour);
      var minutes := 60 * hours + (a.min - b.min);
      && Fits(24 * Days(a, b), INT_HALF) && Fits(hours, INT_HALF)
      && Fits(60 * hours, INT_HALF) && Fits(minutes, INT_HALF) && Fits(60 * minutes, INT_HALF)
    ensures Fits(TmDiff(a, b), INT_HALF)
  {
    hide Fours, Hundreds, FloorDiv, FoursFit;
    YearFits(a.year);
    YearFits(b.year);
    LeapDaysClose(a, b);
  }

  lemma YearFits(year: int)
    requires Fits(year, INT_HALF)
    ensures FoursFit(year)
  {
    var a4 := Fours(year);
    assert -0x2000_0000 <= a4 <= 0x2000_0000 + 475;
    assert -0x200_0000 <= TruncDiv(a4, 25) <= 0x200_0000;
  }

  // Years that are close have few leap days between them.
  lemma LeapDaysClose(a: Tm, b: Tm)
    requires -67 <= a.year - b.year <= 67
    ensures var a4, b4 := Fours(a.year), Fours(b.year);
      && -18 <= a4 - b4 <= 18 && -2 <= Hundreds(a4) - Hundreds(b4) <= 2
      && -2 <= FloorDiv(Hundreds(a4), 4) - FloorDiv(Hundreds(b4), 4) <= 2
  {
    hide Fours, Hundreds;
    FoursFloor(a.year);
    FoursFloor(b.year);
    HundredsFloor(a.year + TM_YEAR_BASE);
    HundredsFloor(b.year + TM_YEAR_BASE);
  }

  /** At 68 years the difference can be too large. */
  lemma TmDiffOverflows()
    ensures exists a, b :: IsNormal(a) && IsNormal(b) && a.year - b.year == 68 && !Fits(TmDiff(a, b), INT_HALF)
  {
    var a, b := Tm(68, 365, 0, 0, 0), Tm(0, 0, 0, 0, 0);
    assert LeapDays(a, b) == 16;
    assert TmDiff(a, b) == 86400 * (365 * 68 + 16 + 365);
  }

  /// Checks against overflow
  /// -----------------------

  datatype TimeResult = Time(value: int) | Overflow

  /** Moves `start` to the zone that is `delta` seconds east, as get_date does. */
  function ApplyZone(start: int, delta: int, h: int): TimeResult
    requires h > 0
  {
    var moved := Wrap(start - delta, h);
    if (start < moved) != (delta < 0) then Overflow else Time(moved)
  }

  /** The zone check rejects exactly the results that `time_t` cannot hold. */
  lemma ZoneCheckIsExact(start: int, delta: int, h: int)
    requires h > 0 && Fits(start, h) && Fits(delta, h)
    ensures ApplyZone(start, delta, h) == if Fits(start - delta, h) then Time(start - delta) else Overflow
  {
    WrapOnce(start - delta, h);
  }

  function Max(a: int, b: int): int
  {
    if a < b then b else a
  }

  /** Adds the relative hours, minutes and seconds, as get_date does: products in a `long` of
      half-range `l`, sums in the wider of `long` and `time_t`, results in a `time_t` of half-range `h`. */
  function AddRelative(t0: int, hours: int, minutes: int, seconds: int, l: int, h: int): TimeResult
    requires l > 0 && h > 0
  {
    var wide := Max(l, h);
    var d1 := Wrap(3600 * hours, l);
    var s1 := Wrap(t0 + d1, wide);
    var t1 := Wrap(s1, h);
    var d2 := Wrap(60 * minutes, l);
    var s2 := Wrap(t1 + d2, wide);
    var t2 := Wrap(s2, h);
    var s3 := Wrap(t2 + seconds, h);
    if || TruncDiv(d1, 3600) != hours
       || TruncDiv(d2, 60) != minutes
       || (s1 < t0) != (d1 < 0)
       || (s2 < t1) != (d2 < 0)
       || (s3 < t2) != (seconds < 0)
    then Overflow
    else Time(s3)
  }

  /** The exact sum, if every product fits a `long` and every partial sum a `time_t`. */
  function ExactSum(t0: int, hours: int, minutes: int, seconds: int, l: int, h: int): TimeResult
  {
    var t1 := t0 + 3600 * hours;
    var t2 := t1 + 60 * minutes;
    var t3 := t2 + seconds;
    if Fits(3600 * hours, l) && Fits(60 * minutes, l) && Fits(t1, h) && Fits(t2, h) && Fits(t3, h) then Time(t3)
    else Overflow
  }

  // The quotient tells whether the product was wrapped.
  lemma ProductCheck(k: int, x: int, l: int)
    requires 0 < k < l && 0 < l
    ensures TruncDiv(Wrap(k * x, l), k) == x <==> Fits(k * x, l)
  {
    var d := Wrap(k * x, l);
    if Fits(k * x, l) {
      WrapFits(k * x, l);
      DivProduct(k, x);
    } else if TruncDiv(d, k) == x {
      var q := WrapLaps(k * x, l);
      TruncDivRemainder(d, k);
    }
  }

  lemma DivProduct(k: int, x: int)
    requires k > 0
    ensures TruncDiv(k * x, k) == x
  {
    var a, y := if k * x >= 0 then k * x else -(k * x), if k * x >= 0 then x else -x;
    var q := a / k;
    assert a == k * y by {
      assert k * -x == -(k * x);
    }
    assert k * q == a - a % k;
    assert k * (y - q) == a % k by {
      assert k * (y - q) == k * y - k * q;
    }
    Multiples(k, y - q);
  }

  lemma TruncDivRemainder(d: int, k: int)
    requires k > 0
    ensures -k < d - k * TruncDiv(d, k) < k
  {}

  // A sum left its range exactly when it moved the wrong way.
  lemma SumCheck(t: int, d: int, h: int)
    requires h > 0 && Fits(t, h) && Fits(d, h)
    ensures (Wrap(t + d, h) < t) == (d < 0) <==> Fits(t + d, h)
    ensures Fits(t + d, h) ==> Wrap(t + d, h) == t + d
  {
    WrapOnce(t + d, h);
  }

  lemma RelativeCheckIsExact(t0: int, hours: int, minutes: int, seconds: int, l: int, h: int)
    requires 3600 < l <= h && Fits(t0, h) && Fits(seconds, h)
    ensures AddRelative(t0, hours, minutes, seconds, l, h) == ExactSum(t0, hours, minutes, seconds, l, h)
  {
    var d1, d2 := Wrap(3600 * hours, l), Wrap(60 * minutes, l);
    var t1 := Wrap(t0 + d1, h);
    var t2 := Wrap(t1 + d2, h);
    ProductCheck(3600, hours, l);
    ProductCheck(60, minutes, l);
    SumCheck(t0, d1, h);
    SumCheck(t1, d2, h);
    SumCheck(t2, seconds, h);
    WrapFits(t1, h);
    WrapFits(t2, h);
    if Fits(3600 * hours, l) {
      WrapFits(3600 * hours, l);
    }
    if Fits(60 * minutes, l) {
      WrapFits(60 * minutes, l);
    }
  }

  /** On a machine with these widths the relative-time check accepts exactly the
      inputs whose products and partial sums are in range, and then adds exactly. */
  ghost predicate ChecksExactly(intBits: nat, longBits: nat, timeBits: nat)
    requires intBits > 0 && longBits > 0 && timeBits > 0
  {
    forall t0, hours, minutes, seconds ::
      && Fits(t0, Half(timeBits)) && Fits(hours, Half(intBits)) && Fits(minutes, Half(intBits))
      && Fits(seconds, Half(intBits))
      ==> AddRelative(t0, hours, minutes, seconds, Half(longBits), Half(timeBits))
          == ExactSum(t0, hours, minutes, seconds, Half(longBits), Half(timeBits))
  }

  lemma {:induction false} HalfGrows(v: nat, w: nat)
    requires 0 < v < w
    ensures 2 * Half(v) <= Half(w)
  {
    if v + 1 < w {
      HalfGrows(v, w - 1);
    }
  }

  lemma HalfOf16()
    ensures Half(16) == 32768
  {
    assert Half(4) == 8;
    assert Half(8) == 128;
    assert Half(12) == 2048;
  }

  // Where `time_t` is narrower than `long`, an hour past its maximum goes unnoticed.
  lemma NarrowTimeIsMissed(l: int, h: int)
    requires 3600 < h && 2 * h <= l
    ensures AddRelative(h - 1, 1, 0, 0, l, h) == Time(3599 - h)
    ensures ExactSum(h - 1, 1, 0, 0, l, h) == Overflow
  {
    WrapFits(3600, l);
    WrapFits(h - 1 + 3600, l);
    WrapOnce(h - 1 + 3600, h);
    WrapFits(0, l);
    WrapFits(3599 - h, l);
    WrapFits(3599 - h, h);
  }

  /** The relative-time check is exact precisely where a `long` is no wider than a `time_t`. */
  lemma ExactWhereLongFitsTime(intBits: nat, longBits: nat, timeBits: nat)
    requires 16 <= intBits <= longBits && intBits <= timeBits
    ensures ChecksExactly(intBits, longBits, timeBits) <==> longBits <= timeBits
  {
    HalfOf16();
    HalfOrder(16, intBits);
    HalfOrder(intBits, longBits);
    HalfOrder(intBits, timeBits);
    if longBits <= timeBits {
      HalfOrder(longBits, timeBits);
      forall t0, hours, minutes, seconds |
        && Fits(t0, Half(timeBits)) && Fits(hours, Half(intBits)) && Fits(minutes, Half(intBits))
      && Fits(seconds, Half(intBits))
        ensures AddRelative(t0, hours, minutes, seconds, Half(longBits), Half(timeBits))
             == ExactSum(t0, hours, minutes, seconds, Half(longBits), Half(timeBits))
      {
        RelativeCheckIsExact(t0, hours, minutes, seconds, Half(longBits), Half(timeBits));
      }
    } else {
      HalfGrows(timeBits, longBits);
      NarrowTimeIsMissed(Half(longBits), Half(timeBits));
    }
  }

  lemma HalfOrder(v: nat, w: nat)
    requires 0 < v <= w
    ensures Half(v) <= Half(w)
  {
    if v < w {
      HalfGrows(v, w);
    }
  }
}
