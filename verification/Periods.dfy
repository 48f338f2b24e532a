/** Week, month, quarter and year bounds around a reference date. */
module Periods {
  import opened Attempts
  import opened Calendar
  import opened Moments

  datatype Bounds = Bounds(start: Date, end: Date, unit: Unit)

  predicate IsPeriod(u: Unit) {
    u == Week || u == Month || u == Year
  }

  function FirstOfMonth(d: Date): Date {
    CalendarDate(d.year, d.month, 1)
  }

  function MonthFrom(start: Date, months: int, u: Unit): Attempt<Bounds> {
    var next :- AddMonths(start, months);
    var end :- AddDays(next, -1);
    Done(Bounds(start, end, u))
  }

  function WeekFrom(start: Date): Attempt<Bounds> {
    var end :- AddDays(start, 6);
    Done(Bounds(start, end, Week))
  }

  /** `_period_bounds`. */
  function PeriodBounds(ref: Date, u: Unit, offset: int): Attempt<Bounds>
    requires IsPeriod(u)
  {
    if u == Week then
      var monday :- AddDays(ref, -Weekday(ref));
      var start :- AddDays(monday, 7 * offset);
      WeekFrom(start)
    else if u == Month then
      var start :- AddMonths(FirstOfMonth(ref), offset);
      MonthFrom(start, 1, Month)
    else
      var start :- MakeDate(ref.year + offset, 1, 1);
      Done(Bounds(start, CalendarDate(start.year, 12, 31), Year))
  }

  /** `_extended_period_bounds`: its quarter branch counts the months of the
      quarter on from the reference's own month. */
  function ExtendedPeriodBounds(ref: Date, u: Unit, offset: int): Attempt<Bounds>
    requires IsPeriod(u) || u == Quarter
  {
    if u == Week then
      var monday :- AddDays(ref, -Weekday(ref));
      var start :- AddDays(monday, 7 * offset);
      WeekFrom(start)
    else if u == Month then
      var start :- AddMonths(FirstOfMonth(ref), offset);
      MonthFrom(start, 1, Month)
    else if u == Quarter then
      var start :- AddMonths(FirstOfMonth(ref), ((ref.month - 1) / 3 + offset) * 3);
      MonthFrom(start, 3, Quarter)
    else
      var start :- MakeDate(ref.year + offset, 1, 1);
      Done(Bounds(start, CalendarDate(start.year, 12, 31), Year))
  }

  /** `_quarter_bounds`. */
  function QuarterBounds(year: int, quarter: int): Attempt<Bounds> {
    var q := if quarter < 1 then 1 else if quarter > 4 then 4 else quarter;
    var start :- MakeDate(year, 3 * q - 2, 1);
    MonthFrom(start, 3, Quarter)
  }

  /** The weekend branch of `_resolve_additional_expression`, with -1 for
      last/previous, 0 for this and 1 for the forward directions. */
  function WeekendBounds(ref: Date, offset: int): Attempt<Bounds> {
    var workday := Weekday(ref) < 5;
    var base :- AddDays(ref, -(Weekday(ref) + if workday then 2 else 0));
    var start :- AddDays(base, if offset < 0 then -7 else if offset > 0 && workday then 7 else 0);
    var end :- AddDays(start, 1);
    Done(Bounds(start, end, Week))
  }

  // ---- periods partition the calendar --------------------------------------

  /** The running number of the week, month or year a date lies in. */
  function PeriodIndex(d: Date, u: Unit): int
    requires IsPeriod(u)
  {
    match u
    case Week => (Ordinal(d) + 6) / 7
    case Month => MonthIndex(d)
    case _ => d.year
  }

  predicate Within(d: Date, b: Bounds) {
    NotAfter(b.start, d) && NotAfter(d, b.end)
  }

  lemma WithinByOrdinal(d: Date, b: Bounds)
    ensures Within(d, b) <==> Ordinal(b.start) <= Ordinal(d) <= Ordinal(b.end)
  {
    OrdinalOrder(d, b.start);
    OrdinalOrder(b.end, d);
  }

  function LastOfMonth(y: int, m: int): Date
    requires IsDate(y, m, 1)
  {
    CalendarDate(y, m, DaysInMonth(y, m))
  }

  lemma DayAfterMonth(y: int, m: int)
    requires IsDate(y, m, 1) && !(y == MAX_YEAR && m == 12)
    ensures Ordinal(LastOfMonth(y, m)) + 1
            == Ordinal(if m == 12 then CalendarDate(y + 1, 1, 1) else CalendarDate(y, m + 1, 1))
  {
    hide DaysInMonth, IsLeap;
    if m == 12 {
      MonthsFillYear(y);
      assert DaysBeforeYear(y + 1) == DaysBeforeYear(y) + YearDays(y);
      assert DaysBeforeMonth(y, 13) == DaysBeforeMonth(y, 12) + DaysInMonth(y, 12);
    }
  }

  /** The day before the first of a month is the true last day of the month before. */
  lemma DayBeforeMonth(next: Date)
    requires next.day == 1
    requires AddDays(next, -1).Done?
    ensures
      var end := AddDays(next, -1).value;
      MonthIndex(end) == MonthIndex(next) - 1 && end.day == DaysInMonth(end.year, end.month)
  {
    assert next != CalendarDate(1, 1, 1) by {
      assert Ordinal(CalendarDate(1, 1, 1)) == 1;
    }
    hide Ordinal, FromOrdinal;
    var end := AddDays(next, -1).value;
    if next.month == 1 {
      DayAfterMonth(next.year - 1, 12);
      OrdinalOrder(LastOfMonth(next.year - 1, 12), end);
    } else {
      DayAfterMonth(next.year, next.month - 1);
      OrdinalOrder(LastOfMonth(next.year, next.month - 1), end);
    }
  }

  lemma MonthEnd(start: Date, months: int, u: Unit)
    requires start.day == 1 && 1 <= months
    requires MonthFrom(start, months, u).Done?
    ensures
      var end := MonthFrom(start, months, u).value.end;
      MonthIndex(end) == MonthIndex(start) + months - 1 && end.day == DaysInMonth(end.year, end.month)
  {
    DayBeforeMonth(AddMonths(start, months).value);
  }

  lemma WeekPartition(ref: Date, offset: int, d: Date)
    requires PeriodBounds(ref, Week, offset).Done?
    ensures Within(d, PeriodBounds(ref, Week, offset).value)
            <==> PeriodIndex(d, Week) == PeriodIndex(ref, Week) + offset
  {
    var b := PeriodBounds(ref, Week, offset).value;
    WithinByOrdinal(d, b);
    WeekArithmetic(Ordinal(ref), Ordinal(d), offset);
  }

  lemma WeekArithmetic(r: int, n: int, k: int)
    ensures
      var start := r - (r + 6) % 7 + 7 * k;
      start <= n <= start + 6 <==> (n + 6) / 7 == (r + 6) / 7 + k
  {
  }

  lemma MonthPartition(ref: Date, offset: int, d: Date)
    requires PeriodBounds(ref, Month, offset).Done?
    ensures Within(d, PeriodBounds(ref, Month, offset).value)
            <==> PeriodIndex(d, Month) == PeriodIndex(ref, Month) + offset
  {
    var start := AddMonths(FirstOfMonth(ref), offset).value;
    MonthEnd(start, 1, Month);
    SameMonthIndex(start, PeriodBounds(ref, Month, offset).value.end);
    if MonthIndex(d) == MonthIndex(start) {
      SameMonthIndex(d, start);
    }
  }

  /** The period at an offset holds exactly the dates whose running number is
      the reference's plus that offset. So offset 0 contains the reference, two
      offsets never overlap, and no date between them is left out. */
  lemma PeriodsPartition(ref: Date, u: Unit, offset: int, d: Date)
    requires IsPeriod(u)
    requires PeriodBounds(ref, u, offset).Done?
    ensures Within(d, PeriodBounds(ref, u, offset).value)
            <==> PeriodIndex(d, u) == PeriodIndex(ref, u) + offset
  {
    match u
    case Week => WeekPartition(ref, offset, d);
    case Month => MonthPartition(ref, offset, d);
    case _ =>
  }

  lemma WeeksAbut(ref: Date, offset: int)
    requires PeriodBounds(ref, Week, offset).Done? && PeriodBounds(ref, Week, offset + 1).Done?
    ensures Ordinal(PeriodBounds(ref, Week, offset).value.end) + 1
            == Ordinal(PeriodBounds(ref, Week, offset + 1).value.start)
  {
  }

  lemma MonthsAbut(ref: Date, offset: int)
    requires PeriodBounds(ref, Month, offset).Done? && PeriodBounds(ref, Month, offset + 1).Done?
    ensures Ordinal(PeriodBounds(ref, Month, offset).value.end) + 1
            == Ordinal(PeriodBounds(ref, Month, offset + 1).value.start)
  {
    AddMonthsExactUpTo28(FirstOfMonth(ref), offset, 1);
  }

  lemma YearsAbut(ref: Date, offset: int)
    requires PeriodBounds(ref, Year, offset).Done? && PeriodBounds(ref, Year, offset + 1).Done?
    ensures Ordinal(PeriodBounds(ref, Year, offset).value.end) + 1
            == Ordinal(PeriodBounds(ref, Year, offset + 1).value.start)
  {
    DayAfterMonth(ref.year + offset, 12);
  }

  /** The day after one period ends is the day the next one starts. */
  lemma PeriodsAbut(ref: Date, u: Unit, offset: int)
    requires IsPeriod(u)
    requires PeriodBounds(ref, u, offset).Done? && PeriodBounds(ref, u, offset + 1).Done?
    ensures
      AddDays(PeriodBounds(ref, u, offset).value.end, 1) == Done(PeriodBounds(ref, u, offset + 1).value.start)
  {
    if u == Week {
      WeeksAbut(ref, offset);
    } else if u == Month {
      MonthsAbut(ref, offset);
    } else {
      YearsAbut(ref, offset);
    }
    NextDay(PeriodBounds(ref, u, offset).value.end, PeriodBounds(ref, u, offset + 1).value.start);
  }

  lemma NextDay(a: Date, b: Date)
    requires Ordinal(a) + 1 == Ordinal(b)
    ensures AddDays(a, 1) == Done(b)
  {
    hide Ordinal, FromOrdinal;
    FromOrdinalInverts(b);
  }

  /** Weeks run Monday to Sunday, months from their 1st to their true last day,
      years from 1 January to 31 December. */
  lemma PeriodShape(ref: Date, u: Unit, offset: int)
    requires IsPeriod(u)
    requires PeriodBounds(ref, u, offset).Done?
    ensures
      var b := PeriodBounds(ref, u, offset).value;
      if u == Week then Weekday(b.start) == 0 && Weekday(b.end) == 6 && Ordinal(b.end) == Ordinal(b.start) + 6
      else if u == Month then b.start.day == 1 && MonthIndex(b.end) == MonthIndex(b.start)
                              && b.end.day == DaysInMonth(b.end.year, b.end.month)
      else b == Bounds(CalendarDate(ref.year + offset, 1, 1), CalendarDate(ref.year + offset, 12, 31), Year)
  {
    if u == Week {
      WeekShape(ref, offset);
    } else if u == Month {
      MonthEnd(AddMonths(FirstOfMonth(ref), offset).value, 1, Month);
    }
  }

  lemma WeekShape(ref: Date, offset: int)
    requires PeriodBounds(ref, Week, offset).Done?
    ensures
      var b := PeriodBounds(ref, Week, offset).value;
      Weekday(b.start) == 0 && Weekday(b.end) == 6 && Ordinal(b.end) == Ordinal(b.start) + 6
  {
    hide Ordinal, FromOrdinal;
    var b := PeriodBounds(ref, Week, offset).value;
    var weeks := (Ordinal(ref) + 6) / 7 + offset;
    assert Ordinal(b.start) + 6 == 7 * weeks;
    SevensAndRest(weeks, 0);
    SevensAndRest(weeks, 6);
  }

  lemma PeriodOrdered(ref: Date, u: Unit, offset: int)
    requires IsPeriod(u) || u == Quarter
    requires ExtendedPeriodBounds(ref, u, offset).Done?
    ensures
      var b := ExtendedPeriodBounds(ref, u, offset).value;
      Before(b.start, b.end)
  {
    var b := ExtendedPeriodBounds(ref, u, offset).value;
    match u
    case Week => OrdinalOrder(b.start, b.end);
    case Month => MonthEnd(b.start, 1, Month);
    case Quarter => MonthEnd(b.start, 3, Quarter);
    case _ =>
  }

  /** Outside quarters the extended bounds are the plain ones. */
  lemma ExtendedAgrees(ref: Date, u: Unit, offset: int)
    requires IsPeriod(u)
    ensures ExtendedPeriodBounds(ref, u, offset) == PeriodBounds(ref, u, offset)
  {
  }

  // ---- quarters ------------------------------------------------------------

  /** The bounds of the quarter `offset` quarters away from the reference's own. */
  function TrueQuarter(ref: Date, offset: int): Attempt<Bounds> {
    var start :- AddMonths(CalendarDate(ref.year, 1, 1), ((ref.month - 1) / 3 + offset) * 3);
    MonthFrom(start, 3, Quarter)
  }

  lemma QuarterBegins(y: int, k: int)
    requires IsDate(y, 1, 1) && 0 <= k < 4
    ensures QuarterBounds(y, k + 1) == MonthFrom(CalendarDate(y, 3 * k + 1, 1), 3, Quarter)
    ensures AddMonths(CalendarDate(y, 1, 1), k * 3) == Done(CalendarDate(y, 3 * k + 1, 1))
  {
    hide MonthFrom, AddMonths, DaysInMonth, IsLeap, AddDays, Ordinal;
    MonthOfYear(y, k * 3);
  }

  lemma QuarterOf(month: int)
    requires 1 <= month <= 12
    ensures 0 <= (month - 1) / 3 < 4
  {
  }

  /** `_quarter_bounds` of the reference's year and quarter is the true quarter. */
  lemma QuarterBoundsTrue(ref: Date)
    ensures QuarterBounds(ref.year, (ref.month - 1) / 3 + 1) == TrueQuarter(ref, 0)
  {
    hide AddMonths, MonthFrom, QuarterBounds;
    QuarterOf(ref.month);
    QuarterBegins(ref.year, (ref.month - 1) / 3);
  }

  /** A "this/last/next quarter" is the intended quarter exactly when the
      reference is in January. */
  lemma QuarterBranchOnlyInJanuary(ref: Date, offset: int)
    requires ExtendedPeriodBounds(ref, Quarter, offset).Done? && TrueQuarter(ref, offset).Done?
    ensures ExtendedPeriodBounds(ref, Quarter, offset) == TrueQuarter(ref, offset) <==> ref.month == 1
  {
  }

  /** "this quarter" contains the reference exactly in January to March. */
  lemma ThisQuarterContainsReference(ref: Date)
    requires ExtendedPeriodBounds(ref, Quarter, 0).Done?
    ensures Within(ref, ExtendedPeriodBounds(ref, Quarter, 0).value) <==> ref.month <= 3
  {
    hide ExtendedPeriodBounds, MonthFrom;
    var b := ExtendedPeriodBounds(ref, Quarter, 0).value;
    QuarterStart(ref, 0);
    MonthEnd(b.start, 3, Quarter);
    if ref.month <= 3 {
      SameMonthIndex(ref, b.start);
      EarlierMonth(ref, b.end);
    } else {
      EarlierMonth(ref, b.start);
    }
  }

  lemma QuarterStart(ref: Date, offset: int)
    requires ExtendedPeriodBounds(ref, Quarter, offset).Done?
    ensures
      var b := ExtendedPeriodBounds(ref, Quarter, offset).value;
      && b.start.day == 1
      && MonthIndex(b.start) == MonthIndex(ref) + 3 * ((ref.month - 1) / 3 + offset)
      && MonthFrom(b.start, 3, Quarter) == Done(b)
  {
    hide Ordinal, AddDays;
  }

  /** How many weeks from the reference's Monday week the weekend branch starts. */
  function WeekendOffset(ref: Date, offset: int): int {
    if Weekday(ref) < 5 then if offset < 0 then -2 else if offset == 0 then -1 else 0
    else if offset < 0 then -1 else 0
  }

  /** From a workday the branch names a Saturday and Sunday: of the week before
      for "this", of two weeks before for "last", of the reference's own week for
      the forward directions. From a Saturday or Sunday it names a Monday and
      Tuesday: of the week before for "last", and otherwise of the reference's own
      week. */
  lemma WeekendDays(ref: Date, offset: int)
    requires WeekendBounds(ref, offset).Done?
    ensures
      var b := WeekendBounds(ref, offset).value;
      && Weekday(b.start) == (if Weekday(ref) < 5 then 5 else 0)
      && PeriodIndex(b.start, Week) == PeriodIndex(ref, Week) + WeekendOffset(ref, offset)
      && Ordinal(b.end) == Ordinal(b.start) + 1
  {
    hide Ordinal, FromOrdinal;
    var b := WeekendBounds(ref, offset).value;
    var weeks := (Ordinal(ref) + 6) / 7 + WeekendOffset(ref, offset);
    if Weekday(ref) < 5 {
      assert Ordinal(b.start) + 6 == 7 * weeks + 5;
      SevensAndRest(weeks, 5);
    } else {
      assert Ordinal(b.start) + 6 == 7 * weeks;
      SevensAndRest(weeks, 0);
    }
  }

  /** "this weekend" never contains its reference: from a workday it is over, and
      from a Saturday or Sunday it is the Monday and Tuesday before. */
  lemma ThisWeekendIsPast(ref: Date)
    requires WeekendBounds(ref, 0).Done?
    ensures Ordinal(WeekendBounds(ref, 0).value.end) < Ordinal(ref)
    ensures !Within(ref, WeekendBounds(ref, 0).value)
  {
    hide Ordinal, FromOrdinal;
    WeekendDays(ref, 0);
    WithinByOrdinal(ref, WeekendBounds(ref, 0).value);
  }

  /** The Saturday and Sunday of the Monday week `offset` weeks from the
      reference's own. */
  predicate IsWeekend(ref: Date, offset: int, b: Bounds) {
    Weekday(b.start) == 5 && PeriodIndex(b.start, Week) == PeriodIndex(ref, Week) + offset
    && Ordinal(b.end) == Ordinal(b.start) + 1
  }

  /** No direction names the weekend that many weeks from the reference's own, from
      any reference; the weekend of the reference's own week is named exactly by
      the forward directions from a workday. */
  lemma WeekendIsOff(ref: Date, offset: int)
    requires -1 <= offset <= 1 && WeekendBounds(ref, offset).Done?
    ensures !IsWeekend(ref, offset, WeekendBounds(ref, offset).value)
    ensures IsWeekend(ref, 0, WeekendBounds(ref, offset).value) <==> offset == 1 && Weekday(ref) < 5
  {
    hide Ordinal, FromOrdinal, WeekendBounds;
    WeekendDays(ref, offset);
  }
}
