/** The proleptic Gregorian calendar of Python's `date`, years 1 to 9999.
    Leap years and month lengths are those of RFC 3339, section 5.7 and Appendix C. */
module Calendar {
  import opened Attempts

  const MIN_YEAR := 1
  const MAX_YEAR := 9999
  const MAX_ORDINAL := 3652059

  datatype CalendarDate = CalendarDate(year: int, month: int, day: int)

  predicate IsLeap(y: int) {
    y % 4 == 0 && (y % 100 != 0 || y % 400 == 0)
  }

  function DaysInMonth(y: int, m: int): (n: int)
    requires 1 <= m <= 12
    ensures 28 <= n <= 31
  {
    if m == 2 then if IsLeap(y) then 29 else 28
    else if m == 4 || m == 6 || m == 9 || m == 11 then 30
    else 31
  }

  predicate IsDate(y: int, m: int, d: int) {
    && MIN_YEAR <= y <= MAX_YEAR
    && 1 <= m <= 12
    && 1 <= d <= DaysInMonth(y, m)
  }

  type Date = d: CalendarDate | IsDate(d.year, d.month, d.day) witness CalendarDate(1, 1, 1)

  /** `date(y, m, d)`: a ValueError outside the calendar. */
  function MakeDate(y: int, m: int, d: int): (r: Attempt<Date>)
    ensures r.Done? <==> IsDate(y, m, d)
  {
    if IsDate(y, m, d) then Done(CalendarDate(y, m, d)) else Raised
  }

  predicate Before(a: Date, b: Date) {
    || a.year < b.year
    || (a.year == b.year && a.month < b.month)
    || (a.year == b.year && a.month == b.month && a.day < b.day)
  }

  predicate NotAfter(a: Date, b: Date) {
    !Before(b, a)
  }

  // ---- ordinal day numbers -------------------------------------------------

  function YearDays(y: int): int {
    if IsLeap(y) then 366 else 365
  }

  function DaysBeforeYear(y: int): int
    requires 1 <= y
  {
    if y == 1 then 0 else DaysBeforeYear(y - 1) + YearDays(y - 1)
  }

  function DaysBeforeMonth(y: int, m: int): (n: int)
    requires 1 <= m <= 13
    ensures 0 <= n
  {
    if m == 1 then 0 else DaysBeforeMonth(y, m - 1) + DaysInMonth(y, m - 1)
  }

  /** `toordinal()`: 0001-01-01 is day 1. */
  function Ordinal(d: Date): int {
    DaysBeforeYear(d.year) + DaysBeforeMonth(d.year, d.month) + d.day
  }

  /** The closed form that CPython computes. */
  lemma {:induction false} DaysBeforeYearClosed(y: int)
    requires 1 <= y
    ensures DaysBeforeYear(y) == 365 * (y - 1) + (y - 1) / 4 - (y - 1) / 100 + (y - 1) / 400
  {
    hide YearDays;
    if y > 1 {
      DaysBeforeYearClosed(y - 1);
      LeapDays(y - 1);
      FloorStep(y - 1, 4);
      FloorStep(y - 1, 100);
      FloorStep(y - 1, 400);
    }
  }

  /** Months have 31 days in odd months up to July and in even ones from August on, 30
      otherwise, and February 28 or 29. */
  lemma MonthLengths(y: int, m: int)
    requires 1 <= m <= 12
    ensures DaysInMonth(y, m) == if m == 2 then YearDays(y) - 337 else if (m + m / 8) % 2 == 1 then 31 else 30
    ensures YearDays(y) == 366 <==> (y % 4 == 0 && y % 100 != 0) || y % 400 == 0
  {
  }

  /** 1970-01-01 is day 719163, a Thursday. */
  lemma EpochDay(d: Date)
    requires d.year == 1970 && d.month == 1 && d.day == 1
    ensures Ordinal(d) == 719163 && Weekday(d) == 3
  {
    DaysBeforeYearClosed(d.year);
  }

  lemma LeapDays(y: int)
    ensures YearDays(y) == 365 + (if y % 4 == 0 then 1 else 0) - (if y % 100 == 0 then 1 else 0)
                           + (if y % 400 == 0 then 1 else 0)
  {
  }

  /** A floor quotient moves by one exactly at the multiples of its divisor. */
  lemma FloorStep(y: int, k: int)
    requires k == 4 || k == 100 || k == 400
    ensures y / k - (y - 1) / k == if y % k == 0 then 1 else 0
  {
  }

  lemma MonthsFillYear(y: int)
    ensures DaysBeforeMonth(y, 13) == YearDays(y)
  {
    assert DaysBeforeMonth(y, 2) == 31;
    assert DaysBeforeMonth(y, 3) == 31 + DaysInMonth(y, 2);
    assert DaysBeforeMonth(y, 5) == DaysBeforeMonth(y, 3) + 61;
    assert DaysBeforeMonth(y, 7) == DaysBeforeMonth(y, 5) + 61;
    assert DaysBeforeMonth(y, 9) == DaysBeforeMonth(y, 7) + 62;
    assert DaysBeforeMonth(y, 11) == DaysBeforeMonth(y, 9) + 61;
  }

  lemma {:induction false} YearsAscend(y: int, z: int)
    requires 1 <= y <= z
    ensures DaysBeforeYear(z) >= DaysBeforeYear(y) + 365 * (z - y)
    decreases z - y
  {
    if y < z {
      YearsAscend(y, z - 1);
    }
  }

  lemma {:induction false} MonthsAscend(y: int, m: int, n: int)
    requires 1 <= m < n <= 13
    ensures DaysBeforeMonth(y, m) + DaysInMonth(y, m) <= DaysBeforeMonth(y, n)
    decreases n - m
  {
    if m + 1 < n {
      MonthsAscend(y, m + 1, n);
    }
  }

  lemma DayWithinYear(d: Date)
    ensures DaysBeforeYear(d.year) < Ordinal(d) <= DaysBeforeYear(d.year + 1)
  {
    MonthsAscend(d.year, d.month, 13);
    MonthsFillYear(d.year);
    assert DaysBeforeYear(d.year + 1) == DaysBeforeYear(d.year) + YearDays(d.year);
  }

  lemma OrdinalRange(d: Date)
    ensures 1 <= Ordinal(d) <= MAX_ORDINAL
  {
    DayWithinYear(d);
    YearsAscend(1, d.year);
    YearsAscend(d.year + 1, MAX_YEAR + 1);
    DaysBeforeYearClosed(MAX_YEAR + 1);
  }

  /** Day numbers order dates exactly as Python compares them. */
  lemma OrdinalOrder(a: Date, b: Date)
    ensures Before(a, b) <==> Ordinal(a) < Ordinal(b)
    ensures a == b <==> Ordinal(a) == Ordinal(b)
  {
    if Before(a, b) {
      BeforeAscends(a, b);
    } else if Before(b, a) {
      BeforeAscends(b, a);
    }
  }

  lemma BeforeAscends(a: Date, b: Date)
    requires Before(a, b)
    ensures Ordinal(a) < Ordinal(b)
  {
    if a.year < b.year {
      DayWithinYear(a);
      DayWithinYear(b);
      YearsAscend(a.year + 1, b.year);
    } else if a.month < b.month {
      MonthsAscend(a.year, a.month, b.month);
    }
  }

  function YearOf(n: int, from: int): (y: int)
    requires 1 <= from && DaysBeforeYear(from) < n
    ensures from <= y
    ensures DaysBeforeYear(y) < n <= DaysBeforeYear(y + 1)
    decreases n - DaysBeforeYear(from)
  {
    if n <= DaysBeforeYear(from + 1) then from else YearOf(n, from + 1)
  }

  function MonthOf(y: int, day: int, from: int): (m: int)
    requires 1 <= from <= 12
    requires DaysBeforeMonth(y, from) < day <= DaysBeforeMonth(y, 13)
    ensures 1 <= m <= 12
    ensures DaysBeforeMonth(y, m) < day <= DaysBeforeMonth(y, m + 1)
    decreases 12 - from
  {
    if day <= DaysBeforeMonth(y, from + 1) then from else MonthOf(y, day, from + 1)
  }

  lemma YearInRange(n: int, y: int)
    requires 1 <= n <= MAX_ORDINAL
    requires 1 <= y && DaysBeforeYear(y) < n
    ensures y <= MAX_YEAR
  {
    if y > MAX_YEAR {
      YearsAscend(MAX_YEAR + 1, y);
      DaysBeforeYearClosed(MAX_YEAR + 1);
    }
  }

  /** `date.fromordinal`: the inverse of `Ordinal`. */
  function FromOrdinal(n: int): (d: Date)
    requires 1 <= n <= MAX_ORDINAL
    ensures Ordinal(d) == n
  {
    var y := YearOf(n, 1);
    YearInRange(n, y);
    MonthsFillYear(y);
    var rest := n - DaysBeforeYear(y);
    var m := MonthOf(y, rest, 1);
    CalendarDate(y, m, rest - DaysBeforeMonth(y, m))
  }

  lemma FromOrdinalInverts(d: Date)
    ensures 1 <= Ordinal(d) <= MAX_ORDINAL && FromOrdinal(Ordinal(d)) == d
  {
    OrdinalRange(d);
    OrdinalOrder(FromOrdinal(Ordinal(d)), d);
  }

  /** `d + timedelta(days=n)`: an OverflowError outside the calendar. */
  function AddDays(d: Date, n: int): (r: Attempt<Date>)
    ensures r.Done? <==> 1 <= Ordinal(d) + n <= MAX_ORDINAL
    ensures r.Done? ==> Ordinal(r.value) == Ordinal(d) + n
  {
    if 1 <= Ordinal(d) + n <= MAX_ORDINAL then Done(FromOrdinal(Ordinal(d) + n)) else Raised
  }

  /** `weekday()`: Monday is 0. Day 1, 0001-01-01, is a Monday. */
  function Weekday(d: Date): (w: int)
    ensures 0 <= w <= 6
  {
    (Ordinal(d) + 6) % 7
  }

  lemma SevensAndRest(q: int, w: int)
    requires 0 <= w < 7
    ensures (7 * q + w) % 7 == w
  {
  }

  lemma AddDaysOrder(d: Date, m: int, n: int)
    requires AddDays(d, m).Done? && AddDays(d, n).Done?
    ensures m <= n <==> NotAfter(AddDays(d, m).value, AddDays(d, n).value)
  {
    OrdinalOrder(AddDays(d, n).value, AddDays(d, m).value);
  }

  lemma AddDaysComposes(d: Date, m: int, n: int)
    requires AddDays(d, m).Done?
    ensures AddDays(AddDays(d, m).value, n) == AddDays(d, m + n)
  {
    if AddDays(d, m + n).Done? {
      OrdinalOrder(AddDays(AddDays(d, m).value, n).value, AddDays(d, m + n).value);
    }
  }

  lemma AddNoDays(d: Date)
    ensures AddDays(d, 0) == Done(d)
  {
    FromOrdinalInverts(d);
  }

  // ---- months --------------------------------------------------------------

  function MonthIndex(d: Date): int {
    d.year * 12 + d.month - 1
  }

  function Clamp(day: int, limit: int): int {
    if day <= limit then day else limit
  }

  /** `_add_months`: the day is clamped to the length of the target month. */
  function AddMonths(d: Date, n: int): (r: Attempt<Date>)
    ensures r.Done? <==> 12 <= MonthIndex(d) + n < 120000
    ensures r.Done? ==> MonthIndex(r.value) == MonthIndex(d) + n
    ensures r.Done? ==> r.value.day == Clamp(d.day, DaysInMonth(r.value.year, r.value.month))
  {
    var index := MonthIndex(d) + n;
    var year, month := index / 12, index % 12 + 1;
    MakeDate(year, month, Clamp(d.day, DaysInMonth(year, month)))
  }

  lemma SameMonthIndex(a: Date, b: Date)
    requires MonthIndex(a) == MonthIndex(b)
    ensures a.year == b.year && a.month == b.month
  {
  }

  lemma MonthOfYear(y: int, k: int)
    requires IsDate(y, 1, 1) && 0 <= k < 12
    ensures AddMonths(CalendarDate(y, 1, 1), k) == Done(CalendarDate(y, k + 1, 1))
  {
    assert (y * 12 + k) / 12 == y && (y * 12 + k) % 12 == k;
  }

  lemma EarlierMonth(a: Date, b: Date)
    requires MonthIndex(a) < MonthIndex(b)
    ensures Before(a, b)
  {
  }

  lemma AddNoMonths(d: Date)
    ensures AddMonths(d, 0) == Done(d)
  {
    SameMonthIndex(AddMonths(d, 0).value, d);
  }

  /** Strictly monotone in the count, whatever the day. */
  lemma AddMonthsOrder(d: Date, m: int, n: int)
    requires AddMonths(d, m).Done? && AddMonths(d, n).Done?
    ensures m < n <==> Before(AddMonths(d, m).value, AddMonths(d, n).value)
  {
    if m < n {
      EarlierMonth(AddMonths(d, m).value, AddMonths(d, n).value);
    } else if n < m {
      EarlierMonth(AddMonths(d, n).value, AddMonths(d, m).value);
    }
  }

  /** Monotone in the date: clamping may merge two dates but never swaps them. */
  lemma AddMonthsMonotone(a: Date, b: Date, n: int)
    requires NotAfter(a, b)
    requires AddMonths(a, n).Done? && AddMonths(b, n).Done?
    ensures NotAfter(AddMonths(a, n).value, AddMonths(b, n).value)
  {
    var x, y := AddMonths(a, n).value, AddMonths(b, n).value;
    if MonthIndex(a) == MonthIndex(b) {
      SameMonthIndex(a, b);
      SameMonthIndex(x, y);
    } else {
      assert MonthIndex(a) < MonthIndex(b);
      EarlierMonth(x, y);
    }
  }

  /** Shifting in two steps reaches the month of the single shift, on the same
      day or earlier; it is the same day exactly when the month passed through
      is long enough for the day, or no shorter than the month reached. */
  lemma AddMonthsComposes(d: Date, m: int, n: int)
    requires AddMonths(d, m).Done? && AddMonths(d, m + n).Done?
    ensures AddMonths(AddMonths(d, m).value, n).Done?
    ensures
      var via, direct := AddMonths(AddMonths(d, m).value, n).value, AddMonths(d, m + n).value;
      && via.year == direct.year && via.month == direct.month && via.day <= direct.day
    ensures
      var mid, direct := AddMonths(d, m).value, AddMonths(d, m + n).value;
      var room := DaysInMonth(mid.year, mid.month);
      AddMonths(mid, n) == Done(direct) <==> d.day <= room || DaysInMonth(direct.year, direct.month) <= room
  {
    SameMonthIndex(AddMonths(AddMonths(d, m).value, n).value, AddMonths(d, m + n).value);
  }

  /** In particular days up to the 28th compose exactly, and going there and
      back is the identity for them. */
  lemma AddMonthsExactUpTo28(d: Date, m: int, n: int)
    requires d.day <= 28
    requires AddMonths(d, m).Done?
    ensures AddMonths(AddMonths(d, m).value, n) == AddMonths(d, m + n)
    ensures AddMonths(AddMonths(d, m).value, -m) == Done(d)
  {
    if AddMonths(d, m + n).Done? {
      AddMonthsComposes(d, m, n);
    }
    AddMonthsComposes(d, m, -m);
    AddNoMonths(d);
  }
}
