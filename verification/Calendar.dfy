/** Calendar arithmetic: days since 1970-01-01 and seconds since the Epoch. */
module Calendar {
  import opened Arithmetic
  import opened Values

  // ---------------------------------------------------------------- the calendar itself

  predicate IsLeap(y: int) {
    y % 4 == 0 && (y % 100 != 0 || y % 400 == 0)
  }

  function DaysInMonth(y: int, m: int): int
    requires 1 <= m <= 12
  {
    if m == 2 then (if IsLeap(y) then 29 else 28)
    else if m in {4, 6, 9, 11} then 30 else 31
  }

  datatype Date = Date(y: int, m: int, d: int)

  predicate ValidDate(a: Date) {
    1 <= a.m <= 12 && 1 <= a.d <= DaysInMonth(a.y, a.m)
  }

  /** The day after, by the rules of the Gregorian calendar. */
  function Next(a: Date): (b: Date)
    requires ValidDate(a)
    ensures ValidDate(b)
  {
    if a.d < DaysInMonth(a.y, a.m) then Date(a.y, a.m, a.d + 1)
    else if a.m < 12 then Date(a.y, a.m + 1, 1)
    else Date(a.y + 1, 1, 1)
  }

  const EPOCH := Date(1970, 1, 1)

  /** The date a number of days after the epoch. */
  function DateAt(n: nat): (a: Date)
    ensures ValidDate(a) && a.y >= 1970
  {
    if n == 0 then EPOCH else Next(DateAt(n - 1))
  }

  // ---------------------------------------------------------------- days_from_epoch

  /** Years are counted from March, so that the leap day ends a year. */
  function MarchYear(y: int, m: int): int {
    if m <= 2 then y - 1 else y
  }

  function Era(y: int): int {
    TruncDiv(y, 400)
  }

  function YearOfEra(y: int): int {
    y - Era(y) * 400
  }

  function DayOfYear(m: int, d: int): int {
    TruncDiv(153 * (m + if m > 2 then -3 else 9) + 2, 5) + d - 1
  }

  function DayOfEra(y: int, m: int, d: int): int {
    var yoe := YearOfEra(y);
    yoe * 365 + TruncDiv(yoe, 4) - TruncDiv(yoe, 100) + DayOfYear(m, d)
  }

  function DaysFromEpoch(y: int, m: int, d: int): int {
    var march := MarchYear(y, m);
    Era(march) * 146097 + DayOfEra(march, m, d) - 719468
  }

  /** Days before March of a year, in the proleptic Gregorian calendar. */
  function DaysBeforeMarchOf(y: int): int {
    365 * y + y / 4 - y / 100 + y / 400
  }

  /** The days of 400 years repeat. */
  lemma DaysRepeat(e: int, r: int)
    ensures DaysBeforeMarchOf(400 * e + r) == 146097 * e + DaysBeforeMarchOf(r)
  {
    assert (400 * e + r) / 4 == 100 * e + r / 4;
    assert (400 * e + r) / 100 == 4 * e + r / 100;
    assert (400 * e + r) / 400 == e + r / 400;
  }

  /** One year is 365 days, and one more if it ends with a leap day. */
  lemma YearStep(y: int)
    ensures DaysBeforeMarchOf(y + 1) == DaysBeforeMarchOf(y) + if IsLeap(y + 1) then 366 else 365
  {
    DivStep(y, 4);
    DivStep(y, 100);
    DivStep(y, 400);
    FourHundred(y + 1);
  }

  /** A quotient goes up by one where the divisor divides. */
  lemma DivStep(y: int, k: int)
    requires k > 1
    ensures (y + 1) / k == y / k + if (y + 1) % k == 0 then 1 else 0
  {
    QuotientStep(y, k, y / k, y % k);
  }

  lemma QuotientStep(y: int, k: int, q: int, r: int)
    requires k > 1 && y == q * k + r && 0 <= r < k
    ensures (y + 1) / k == if r + 1 == k then q + 1 else q
    ensures (y + 1) % k == if r + 1 == k then 0 else r + 1
  {
    if r + 1 == k {
      OneMore(q, k);
      DivModUnique(y + 1, k, q + 1, 0);
    } else {
      DivModUnique(y + 1, k, q, r + 1);
    }
  }

  lemma OneMore(q: int, k: int)
    ensures (q + 1) * k == q * k + k
  {
  }

  /** Truncating division of a number that is not positive. */
  lemma TruncDivUp(r: int, k: int)
    requires r <= 0 && k > 0
    ensures TruncDiv(r, k) == r / k + if r % k == 0 then 0 else 1
  {
    assert TruncDiv(r, k) == -(-r / k);
    hide TruncDiv;
    QuotientOfNegative(r, k, -r / k, -r % k);
  }

  lemma QuotientOfNegative(r: int, k: int, q: int, s: int)
    requires k > 0 && -r == q * k + s && 0 <= s < k
    ensures r / k == (if s == 0 then -q else -q - 1) && (r % k == 0 <==> s == 0)
  {
    NegatedProduct(k, q);
    if s == 0 {
      DivModUnique(r, k, -q, 0);
    } else {
      OneMore(-q - 1, k);
      DivModUnique(r, k, -q - 1, k - s);
    }
  }

  lemma EraSplit(y: int)
    ensures y == 400 * Era(y) + YearOfEra(y)
    ensures y >= 0 ==> 0 <= YearOfEra(y) < 400
    ensures y <= 0 ==> -400 < YearOfEra(y) <= 0
    ensures y % 4 == YearOfEra(y) % 4 && y % 100 == YearOfEra(y) % 100 && y % 400 == YearOfEra(y) % 400
  {
    var e, r := Era(y), YearOfEra(y);
    ModMultiple(r, 100 * e, 4);
    ModMultiple(r, 4 * e, 100);
    ModMultiple(r, e, 400);
  }

  /** Truncating division shortens the count of a negative year by the leap days it misplaces. */
  lemma DaysBeforeByEra(y: int)
    ensures Era(y) * 146097 + YearOfEra(y) * 365 + TruncDiv(YearOfEra(y), 4) - TruncDiv(YearOfEra(y), 100)
         == DaysBeforeMarchOf(y) + if y >= 0 || IsLeap(y) then 0 else 1
  {
    hide Era, YearOfEra;
    var e, r := Era(y), YearOfEra(y);
    EraSplit(y);
    DaysRepeat(e, r);
    DaysBeforeInEra(r);
  }

  lemma DaysBeforeInEra(r: int)
    requires -400 < r < 400
    ensures r * 365 + TruncDiv(r, 4) - TruncDiv(r, 100)
         == DaysBeforeMarchOf(r) + if r >= 0 || IsLeap(r) then 0 else 1
  {
    if r < 0 {
      hide TruncDiv;
      TruncDivUp(r, 4);
      TruncDivUp(r, 100);
      DivModUnique(r, 400, -1, r + 400);
      FourHundred(r);
    } else {
      DivModUnique(r, 400, 0, r);
    }
  }

  lemma FourHundred(r: int)
    ensures r % 100 == 0 ==> r % 4 == 0
    ensures r % 400 == 0 ==> r % 100 == 0
  {
  }

  /** The ranges that days_from_epoch is annotated with. */
  lemma Ranges(a: Date)
    requires ValidDate(a) && MarchYear(a.y, a.m) >= 0
    ensures var march := MarchYear(a.y, a.m);
            && 0 <= YearOfEra(march) <= 399
            && 0 <= DayOfYear(a.m, a.d) <= 365
            && 0 <= DayOfEra(march, a.m, a.d) <= 146096
  {
    var yoe := YearOfEra(MarchYear(a.y, a.m));
    assert 0 <= yoe <= 399;
    LastDayOfEra(a);
  }

  /** Only in a year that ends with a leap day is there a day 365. */
  lemma LastDayOfEra(a: Date)
    requires ValidDate(a)
    ensures 0 <= DayOfYear(a.m, a.d) <= if IsLeap(MarchYear(a.y, a.m) + 1) then 365 else 364
  {
  }

  /** The day count of a date: what days_from_epoch ought to return. */
  function DayCount(a: Date): int
    requires 1 <= a.m <= 12
  {
    DaysBeforeMarchOf(MarchYear(a.y, a.m)) + DayOfYear(a.m, a.d) - 719468
  }

  lemma DayCountOfNext(a: Date)
    requires ValidDate(a)
    ensures DayCount(Next(a)) == DayCount(a) + 1
  {
    hide DaysBeforeMarchOf, IsLeap;
    YearStep(a.y - 1);
  }

  lemma DayCountOfEpoch()
    ensures DayCount(EPOCH) == 0
  {
  }

  /** The day count is the Gregorian one: day n after the epoch has number n. */
  lemma {:induction false} DayCountOfDateAt(n: nat)
    ensures DayCount(DateAt(n)) == n
  {
    hide DayCount, Next;
    DayCountOfEpoch();
    if n > 0 {
      DayCountOfDateAt(n - 1);
      DayCountOfNext(DateAt(n - 1));
    }
  }

  /** days_from_epoch is that count exactly from March of year 0 on, and before it in the years, counted from
      March, that are leap years. */
  lemma DaysFromEpochExactly(a: Date)
    requires 1 <= a.m <= 12
    ensures DaysFromEpoch(a.y, a.m, a.d) == DayCount(a)
       <==> MarchYear(a.y, a.m) >= 0 || IsLeap(MarchYear(a.y, a.m))
  {
    DaysBeforeByEra(MarchYear(a.y, a.m));
  }

  /** Two dates around the start of year 0, counted from March, that get the same number. */
  lemma SameNumberTwice()
    ensures ValidDate(Date(0, 2, 29)) && Next(Date(0, 2, 29)) == Date(0, 3, 1)
    ensures DaysFromEpoch(0, 2, 29) == DaysFromEpoch(0, 3, 1) == DayCount(Date(0, 3, 1))
    ensures DaysFromEpoch(0, 2, 29) == DayCount(Date(0, 2, 29)) + 1
  {
    hide DaysFromEpoch, DayCount;
    LastDayOfYearMinusOne();
    FirstDayOfYearZero();
    assert Next(Date(0, 2, 29)) == Date(0, 3, 1);
    DaysFromEpochExactly(Date(0, 3, 1));
    DayCountOfNext(Date(0, 2, 29));
  }

  lemma LastDayOfYearMinusOne()
    ensures DaysFromEpoch(0, 2, 29) == -719468
  {
    assert TruncDiv(-1, 400) == TruncDiv(-1, 100) == TruncDiv(-1, 4) == 0;
    assert TruncDiv(1685, 5) == 337;
  }

  lemma FirstDayOfYearZero()
    ensures DaysFromEpoch(0, 3, 1) == -719468
  {
    assert TruncDiv(0, 400) == TruncDiv(0, 100) == TruncDiv(0, 4) == TruncDiv(2, 5) == 0;
  }

  /** 1970-01-01 is day 0 and the day n days later is day n. */
  lemma DaysFromEpochCounts(n: nat)
    ensures var a := DateAt(n);
            DaysFromEpoch(a.y, a.m, a.d) == n
  {
    DayCountOfDateAt(n);
    DaysFromEpochExactly(DateAt(n));
  }

  /** A valid date and the next one get successive numbers. */
  lemma DaysFromEpochOfNext(a: Date)
    requires ValidDate(a) && MarchYear(a.y, a.m) >= 0
    ensures var b := Next(a);
            DaysFromEpoch(b.y, b.m, b.d) == DaysFromEpoch(a.y, a.m, a.d) + 1
  {
    DayCountOfNext(a);
    DaysFromEpochExactly(a);
    DaysFromEpochExactly(Next(a));
  }

  predicate Before(a: Date, b: Date) {
    a.y < b.y || (a.y == b.y && (a.m < b.m || (a.m == b.m && a.d < b.d)))
  }

  /** Order of dates is order of numbers: days_from_epoch is strictly monotone, hence injective. */
  lemma {:induction false} DaysFromEpochIsMonotone(a: Date, b: Date)
    requires ValidDate(a) && ValidDate(b) && MarchYear(a.y, a.m) >= 0 && MarchYear(b.y, b.m) >= 0
    ensures Before(a, b) <==> DaysFromEpoch(a.y, a.m, a.d) < DaysFromEpoch(b.y, b.m, b.d)
    ensures a == b <==> DaysFromEpoch(a.y, a.m, a.d) == DaysFromEpoch(b.y, b.m, b.d)
  {
    DaysFromEpochExactly(a);
    DaysFromEpochExactly(b);
    if Before(a, b) {
      DayCountIsMonotone(a, b);
    } else if Before(b, a) {
      DayCountIsMonotone(b, a);
    }
  }

  lemma {:induction false} YearsAreMonotone(x: int, y: int)
    requires x <= y
    ensures DaysBeforeMarchOf(y) >= DaysBeforeMarchOf(x) + 365 * (y - x)
    decreases y - x
  {
    if x < y {
      YearStep(y - 1);
      YearsAreMonotone(x, y - 1);
    }
  }

  lemma DayCountIsMonotone(a: Date, b: Date)
    requires ValidDate(a) && ValidDate(b) && Before(a, b)
    ensures DayCount(a) < DayCount(b)
  {
    hide DaysBeforeMarchOf, IsLeap;
    var x, y := MarchYear(a.y, a.m), MarchYear(b.y, b.m);
    LastDayOfEra(a);
    LastDayOfEra(b);
    if x < y {
      YearStep(x);
      YearsAreMonotone(x + 1, y);
    }
  }

  // ---------------------------------------------------------------- util_timegm

  /** Broken-down time: years since 1900, months since January, day of the month, and time of the day. */
  datatype Tm = Tm(year: int, mon: int, mday: int, hour: int, min: int, sec: int)

  function Normalised(t: Tm): (int, int) {
    var year, month := t.year + 1900, t.mon;
    if month > 11 then (year + TruncDiv(month, 12), TruncMod(month, 12))
    else if month < 0 then
      var yearsDiff := TruncDiv(11 - month, 12);
      (year - yearsDiff, month + 12 * yearsDiff)
    else (year, month)
  }

  function Timegm(t: Tm): int {
    var (year, month) := Normalised(t);
    var days := DaysFromEpoch(year, month + 1, t.mday);
    60 * (60 * (24 * days + t.hour) + t.min) + t.sec
  }

  /** Any month is brought into a year by whole years. */
  lemma MonthsAreNormalised(t: Tm)
    ensures var (year, month) := Normalised(t);
            0 <= month <= 11 && 12 * year + month == 12 * (t.year + 1900) + t.mon
  {
  }

  function DaysBeforeMonth(y: int, m: nat): int
    requires m <= 11
  {
    if m == 0 then 0 else DaysBeforeMonth(y, m - 1) + DaysInMonth(y, m)
  }

  /** Seconds Since the Epoch, section 4.16 of POSIX.1-2017 Base Definitions; divisions are of non-negative numbers. */
  function SecondsSinceTheEpoch(tmYear: int, tmYday: int, hour: int, min: int, sec: int): int
    requires tmYear >= 70
  {
    sec + min * 60 + hour * 3600 + tmYday * 86400 + (tmYear - 70) * 31536000
    + ((tmYear - 69) / 4) * 86400 - ((tmYear - 1) / 100) * 86400 + ((tmYear + 299) / 400) * 86400
  }

  lemma {:induction false} DayOfYearFromJanuary(y: int, m: nat, d: int)
    requires m <= 11
    ensures DaysBeforeMonth(y, m) + d - 1
         == DayOfYear(m + 1, d) + if m < 2 then -306 else if IsLeap(y) then 60 else 59
  {
    MonthTable(y);
  }

  lemma MonthTable(y: int)
    ensures var feb := if IsLeap(y) then 29 else 28;
            && DaysBeforeMonth(y, 0) == 0 && DaysBeforeMonth(y, 1) == 31
            && DaysBeforeMonth(y, 2) == 31 + feb && DaysBeforeMonth(y, 3) == 62 + feb
            && DaysBeforeMonth(y, 4) == 92 + feb && DaysBeforeMonth(y, 5) == 123 + feb
            && DaysBeforeMonth(y, 6) == 153 + feb && DaysBeforeMonth(y, 7) == 184 + feb
            && DaysBeforeMonth(y, 8) == 215 + feb && DaysBeforeMonth(y, 9) == 245 + feb
            && DaysBeforeMonth(y, 10) == 276 + feb && DaysBeforeMonth(y, 11) == 306 + feb
  {
  }

  /** The leap-day terms of the standard are the day count of January 1st. */
  lemma PosixYears(y: int)
    ensures 365 * (y - 1970) + (y - 1969) / 4 - (y - 1901) / 100 + (y - 1601) / 400
         == DaysBeforeMarchOf(y - 1) - 719162
  {
    assert y - 1969 == (y - 1) - 492 * 4 && y - 1901 == (y - 1) - 19 * 100 && y - 1601 == (y - 1) - 4 * 400;
    DivShift(y - 1, 492, 4);
    DivShift(y - 1, 19, 100);
    DivShift(y - 1, 4, 400);
  }

  lemma DivShift(x: int, q: int, k: int)
    requires k > 0
    ensures (x - q * k) / k == x / k - q
  {
    assert x - q * k == (x / k - q) * k + x % k by {
      assert (x / k - q) * k == (x / k) * k - q * k;
    }
    DivModUnique(x - q * k, k, x / k - q, x % k);
  }

  /** The days of a date from 1970 on, by years and by days since January. */
  lemma DaysByYearAndDay(y: int, month: nat, d: int)
    requires y >= 1970 && month <= 11
    ensures DaysFromEpoch(y, month + 1, d) == 365 * (y - 1970) + (y - 1969) / 4 - (y - 1901) / 100
                                              + (y - 1601) / 400 + DaysBeforeMonth(y, month) + d - 1
  {
    hide DaysFromEpoch, DaysBeforeMarchOf, DayOfYear, DaysBeforeMonth;
    DaysFromEpochExactly(Date(y, month + 1, d));
    DayOfYearFromJanuary(y, month, d);
    PosixYears(y);
    YearStep(y - 1);
  }

  /** util_timegm is the formula of the standard, for every time whose months bring it to 1970 or later. */
  lemma TimegmIsPosix(t: Tm)
    requires Normalised(t).0 >= 1970
    ensures var (year, month) := Normalised(t);
            && 0 <= month <= 11
            && Timegm(t) == SecondsSinceTheEpoch(year - 1900, DaysBeforeMonth(year, month) + t.mday - 1,
                                                 t.hour, t.min, t.sec)
  {
    hide DaysFromEpoch, DaysBeforeMonth, Normalised;
    MonthsAreNormalised(t);
    var (year, month) := Normalised(t);
    DaysByYearAndDay(year, month, t.mday);
  }
}
