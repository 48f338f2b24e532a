/** Which dates the relative and absolute expressions name: for every shape, what
    holds of the match, and that it raises only when no date will do. */
module NamedDates {
  import opened Attempts
  import opened Calendar
  import opened Moments
  import opened Periods
  import opened Text
  import opened Iso
  import opened Grammar
  import opened Branches
  import opened Meanings

  // ---- matches on whole days -----------------------------------------------

  predicate IsOneDay(m: TemporalMatch, u: Unit, basis: Basis) {
    m.start.Some? && m.start.value.micros == 0 && m.end.None? && m.precision == Whole(u) && m.basis == basis
  }

  predicate IsDayRange(m: TemporalMatch, u: Unit, basis: Basis) {
    && m.start.Some? && m.start.value.micros == 0
    && m.end.Some? && m.end.value.micros == 0
    && m.precision == Whole(u) && m.basis == basis
  }

  predicate Covers(m: TemporalMatch, d: Date)
    requires m.start.Some? && m.end.Some?
  {
    NotAfter(m.start.value.date, d) && NotAfter(d, m.end.value.date)
  }

  // ---- the shapes that name one day ----------------------------------------

  predicate IsBeside(d: Date, ref: Date, days: int) {
    Ordinal(d) == Ordinal(ref) + days
  }

  /** The date is that many units from the reference; a month or year away its day
      is cut to the length of its month. */
  predicate IsShifted(d: Date, ref: Date, n: int, u: DateUnit) {
    if u == Day then IsBeside(d, ref, n)
    else if u == Week then IsBeside(d, ref, 7 * n)
    else
      && MonthIndex(d) == MonthIndex(ref) + (if u == Year then 12 * n else n)
      && d.day == if ref.day <= DaysInMonth(d.year, d.month) then ref.day else DaysInMonth(d.year, d.month)
  }

  /** "last" is before the reference by at most a week, "this" in its Monday week,
      "next" in the Monday week after. */
  predicate IsDirected(d: Date, ref: Date, direction: int, weekday: int) {
    && Weekday(d) == weekday
    && if direction < 0 then Ordinal(ref) - 7 <= Ordinal(d) < Ordinal(ref)
       else PeriodIndex(d, Week) == PeriodIndex(ref, Week) + if direction == 0 then 0 else 1
  }

  predicate IsNextOn(d: Date, ref: Date, weekday: int) {
    Weekday(d) == weekday && Ordinal(ref) <= Ordinal(d) < Ordinal(ref) + 7
  }

  predicate NamesOneDay(shape: BaseShape) {
    shape.DayWord? || shape.DirectedWeekday? || shape.Ago? || shape.BareWeekday?
  }

  /** The one day a shape names, from a reference. */
  predicate Names(shape: BaseShape, ref: Date, d: Date)
    requires NamesOneDay(shape)
  {
    match shape
    case DayWord(offset) => IsBeside(d, ref, offset)
    case DirectedWeekday(direction, weekday) => IsDirected(d, ref, direction, weekday)
    case Ago(count, unit) => IsShifted(d, ref, -(count as int), unit)
    case BareWeekday(weekday) => IsNextOn(d, ref, weekday)
  }

  lemma BesideIs(ref: Date, days: int, d: Date)
    ensures IsBeside(d, ref, days) <==> AddDays(ref, days) == Done(d)
  {
    OrdinalRange(d);
    if IsBeside(d, ref, days) {
      OrdinalOrder(AddDays(ref, days).value, d);
    }
  }

  lemma ShiftIs(ref: Date, n: int, u: DateUnit, d: Date)
    ensures IsShifted(d, ref, n, u) <==> ShiftDate(ref, n, u) == Done(d)
  {
    if u == Day || u == Week {
      BesideIs(ref, if u == Day then n else 7 * n, d);
    } else {
      MonthsIs(ref, if u == Month then n else n * 12, d);
    }
  }

  lemma MonthsIs(ref: Date, n: int, d: Date)
    ensures AddMonths(ref, n) == Done(d) <==>
      MonthIndex(d) == MonthIndex(ref) + n && d.day == Clamp(ref.day, DaysInMonth(d.year, d.month))
  {
    if MonthIndex(d) == MonthIndex(ref) + n {
      SameMonthIndex(AddMonths(ref, n).value, d);
    }
  }

  lemma SameInWindow(a: int, b: int)
    requires (a + 6) % 7 == (b + 6) % 7 && -7 < a - b < 7
    ensures a == b
  {
  }

  lemma SameInWeek(a: int, b: int)
    requires (a + 6) % 7 == (b + 6) % 7 && (a + 6) / 7 == (b + 6) / 7
    ensures a == b
  {
  }

  /** The target's day number, before it is known to be in the calendar. */
  function DirectedOrdinal(ref: Date, direction: int, weekday: int): int {
    var w := Weekday(ref);
    if direction < 0 then
      var since := (w - weekday) % 7;
      Ordinal(ref) - if since == 0 then 7 else since
    else Ordinal(ref) - w + weekday + if direction == 0 then 0 else 7
  }

  lemma DirectedOrdinalMeans(n: int, direction: int, weekday: int)
    requires 0 <= weekday < 7
    ensures
      var w := (n + 6) % 7;
      var since := (w - weekday) % 7;
      var t := if direction < 0 then n - (if since == 0 then 7 else since)
               else n - w + weekday + if direction == 0 then 0 else 7;
      && (t + 6) % 7 == weekday
      && if direction < 0 then n - 7 <= t < n else (t + 6) / 7 == (n + 6) / 7 + if direction == 0 then 0 else 1
  {
    if direction < 0 {
      WeekdayStep(n, weekday, ((n + 6) % 7 - weekday) % 7);
      WeekLater(n - 7, weekday);
    } else {
      WeekdayOfSum(n, weekday - (n + 6) % 7, weekday);
      WeekLater(n + weekday - (n + 6) % 7, weekday);
    }
  }

  lemma MondayExists(ref: Date)
    ensures AddDays(ref, -Weekday(ref)).Done?
    ensures Ordinal(AddDays(ref, -Weekday(ref)).value) == Ordinal(ref) - Weekday(ref)
  {
    OrdinalRange(ref);
    MondayArithmetic(Ordinal(ref));
  }

  lemma MondayArithmetic(n: int)
    requires 1 <= n
    ensures 1 <= n - (n + 6) % 7 <= n
  {
  }

  lemma DirectedTarget(ref: Date, direction: int, weekday: WeekdayNumber)
    ensures
      var r, t := DirectedDate(ref, direction, weekday), DirectedOrdinal(ref, direction, weekday);
      && (r.Done? <==> 1 <= t <= MAX_ORDINAL)
      && (r.Done? ==> Ordinal(r.value) == t)
  {
    hide Ordinal, FromOrdinal, AddDays, Weekday;
    MondayExists(ref);
  }

  lemma DirectedIs(ref: Date, direction: int, weekday: WeekdayNumber, d: Date)
    ensures IsDirected(d, ref, direction, weekday) <==> DirectedDate(ref, direction, weekday) == Done(d)
  {
    hide Ordinal, FromOrdinal, DirectedDate;
    var t := DirectedOrdinal(ref, direction, weekday);
    var target := DirectedDate(ref, direction, weekday);
    DirectedTarget(ref, direction, weekday);
    OrdinalRange(d);
    DirectedOrdinalMeans(Ordinal(ref), direction, weekday);
    if target.Done? {
      OrdinalOrder(target.value, d);
    }
    if IsDirected(d, ref, direction, weekday) {
      hide DirectedOrdinal;
      if direction < 0 {
        SameInWindow(Ordinal(d), t);
      } else {
        SameInWeek(Ordinal(d), t);
      }
    }
  }

  lemma NextOnIs(ref: Date, weekday: WeekdayNumber, d: Date)
    ensures IsNextOn(d, ref, weekday) <==> OnOrAfter(ref, weekday) == Done(d)
  {
    hide Ordinal, FromOrdinal;
    WeekdayAhead(Ordinal(ref), weekday);
    OrdinalRange(d);
    var ahead := (weekday - Weekday(ref)) % 7;
    if IsNextOn(d, ref, weekday) {
      SameInWindow(Ordinal(d), Ordinal(ref) + ahead);
    }
    BesideIs(ref, ahead, d);
  }

  /** The date a one-day shape is read as. */
  function DayOf(shape: BaseShape, ref: Date): Attempt<Date>
    requires NamesOneDay(shape)
  {
    match shape
    case DayWord(offset) => AddDays(ref, offset)
    case DirectedWeekday(direction, weekday) => DirectedDate(ref, direction, weekday)
    case Ago(count, unit) => AgoDate(ref, count, unit)
    case BareWeekday(weekday) => OnOrAfter(ref, weekday)
  }

  lemma NamesIs(shape: BaseShape, ref: Date, d: Date)
    requires NamesOneDay(shape)
    ensures Names(shape, ref, d) <==> DayOf(shape, ref) == Done(d)
  {
    hide Ordinal, AddDays, DirectedDate, OnOrAfter, AgoDate, ShiftDate, IsBeside, IsDirected, IsNextOn, IsShifted;
    match shape
    case DayWord(offset) => BesideIs(ref, offset, d);
    case DirectedWeekday(direction, weekday) => DirectedIs(ref, direction, weekday, d);
    case Ago(count, unit) =>
      AgoIsNegativeShift(ref, count, unit);
      ShiftIs(ref, -(count as int), unit, d);
    case BareWeekday(weekday) => NextOnIs(ref, weekday, d);
  }

  function DayUnit(shape: BaseShape): Unit {
    if shape.Ago? then shape.agoUnit else Day
  }

  lemma OneDayMatch(g: Grammar, text: string, shape: BaseShape, ref: Date)
    requires NamesOneDay(shape)
    ensures BaseMatch(g, text, shape, ref) == DateMatch(g, text, DayOf(shape, ref), DayUnit(shape))
  {
    hide AddDays, DirectedDate, AgoDate, OnOrAfter, DateMatch;
  }

  lemma DateMatchMeans(g: Grammar, text: string, d: Attempt<Date>, u: Unit)
    ensures
      var r := DateMatch(g, text, d, u);
      if d.Raised? then r.Raised?
      else r.Done? && r.value.Some? && IsOneDay(r.value.value, u, Relative) && r.value.value.start.value.date == d.value
  {
    hide BoundsText;
  }

  /** A reading of one day: it raises exactly when no day is meant, and otherwise is
      a match on the one day that is, without an end. */
  ghost predicate ReadsDay(r: Reading, u: Unit, means: Date -> bool) {
    if r.Raised? then forall d: Date :: !means(d)
    else
      && r.value.Some? && IsOneDay(r.value.value, u, Relative)
      && forall d: Date :: means(d) <==> d == r.value.value.start.value.date
  }

  lemma DateReads(g: Grammar, text: string, target: Attempt<Date>, u: Unit, means: Date -> bool)
    requires forall d: Date :: means(d) <==> target == Done(d)
    ensures ReadsDay(DateMatch(g, text, target, u), u, means)
  {
    hide DateMatch;
    DateMatchMeans(g, text, target, u);
  }

  /** Today, yesterday, tomorrow, a weekday and N units ago are read as the one day
      they name. */
  lemma BaseNamesDay(g: Grammar, text: string, shape: BaseShape, ref: Date)
    requires NamesOneDay(shape)
    ensures ReadsDay(BaseMatch(g, text, shape, ref), DayUnit(shape), (d: Date) => Names(shape, ref, d))
  {
    hide Names, DayOf, DateMatch, BaseMatch, ReadsDay;
    OneDayMatch(g, text, shape, ref);
    forall d: Date
      ensures Names(shape, ref, d) <==> DayOf(shape, ref) == Done(d)
    {
      NamesIs(shape, ref, d);
    }
    DateReads(g, text, DayOf(shape, ref), DayUnit(shape), (d: Date) => Names(shape, ref, d));
  }

  // ---- periods -------------------------------------------------------------

  /** Whether the arithmetic of a week, month or year stays in the calendar: the
      month after a month must exist too, and the Sunday of a week. */
  predicate PeriodInCalendar(ref: Date, offset: int, u: PeriodUnit) {
    var index := PeriodIndex(ref, u) + offset;
    if u == Week then 1 <= index && 7 * index <= MAX_ORDINAL
    else if u == Month then 12 <= index && index + 1 < 120000
    else MIN_YEAR <= index <= MAX_YEAR
  }

  lemma WeekInCalendar(ref: Date, offset: int)
    ensures PeriodBounds(ref, Week, offset).Done? <==> PeriodInCalendar(ref, offset, Week)
  {
    hide Ordinal, FromOrdinal;
    MondayExists(ref);
    var monday := AddDays(ref, -Weekday(ref)).value;
    var index := PeriodIndex(ref, Week);
    assert Ordinal(monday) == 7 * index - 6;
    assert Ordinal(monday) + 7 * offset == 7 * (index + offset) - 6;
  }

  lemma MonthInCalendar(ref: Date, offset: int)
    ensures PeriodBounds(ref, Month, offset).Done? <==> PeriodInCalendar(ref, offset, Month)
  {
    var start := AddMonths(FirstOfMonth(ref), offset);
    if start.Done? && AddMonths(start.value, 1).Done? {
      var next := AddMonths(start.value, 1).value;
      EarlierMonth(start.value, next);
      OrdinalOrder(start.value, next);
      OrdinalRange(start.value);
      OrdinalRange(next);
    }
  }

  lemma PeriodRaises(ref: Date, offset: int, u: PeriodUnit)
    ensures PeriodBounds(ref, u, offset).Done? <==> PeriodInCalendar(ref, offset, u)
  {
    if u == Week {
      WeekInCalendar(ref, offset);
    } else if u == Month {
      MonthInCalendar(ref, offset);
    }
  }

  lemma PeriodUnitIs(ref: Date, offset: int, u: PeriodUnit)
    requires PeriodBounds(ref, u, offset).Done?
    ensures PeriodBounds(ref, u, offset).value.unit == u
  {
    hide AddDays, AddMonths;
  }

  // ---- quarters and the extended periods -----------------------------------

  lemma MonthsCover(start: Date, months: int, u: Unit, d: Date)
    requires start.day == 1 && 1 <= months
    requires MonthFrom(start, months, u).Done?
    ensures Within(d, MonthFrom(start, months, u).value)
            <==> MonthIndex(start) <= MonthIndex(d) < MonthIndex(start) + months
  {
    hide AddMonths, AddDays;
    var b := MonthFrom(start, months, u).value;
    MonthEnd(start, months, u);
    if MonthIndex(d) == MonthIndex(start) {
      SameMonthIndex(d, start);
    }
    if MonthIndex(d) == MonthIndex(b.end) {
      SameMonthIndex(d, b.end);
    }
  }

  lemma MonthsInCalendar(start: Date, months: int, u: Unit)
    requires 1 <= months
    ensures MonthFrom(start, months, u).Done? <==> MonthIndex(start) + months < 120000
  {
    if AddMonths(start, months).Done? {
      var next := AddMonths(start, months).value;
      EarlierMonth(start, next);
      OrdinalOrder(start, next);
      OrdinalRange(start);
      OrdinalRange(next);
    }
  }

  /** The first month of the quarter branch, counted on from the reference's own
      month. */
  function QuarterFirst(ref: Date, offset: int): int {
    MonthIndex(ref) + 3 * ((ref.month - 1) / 3 + offset)
  }

  predicate LongInCalendar(ref: Date, offset: int, u: LongPeriod) {
    if u == Quarter then 12 <= QuarterFirst(ref, offset) && QuarterFirst(ref, offset) + 3 < 120000
    else PeriodInCalendar(ref, offset, u)
  }

  predicate InLongPeriod(d: Date, ref: Date, offset: int, u: LongPeriod) {
    if u == Quarter then QuarterFirst(ref, offset) <= MonthIndex(d) < QuarterFirst(ref, offset) + 3
    else PeriodIndex(d, u) == PeriodIndex(ref, u) + offset
  }

  lemma QuarterUnit(start: Date)
    ensures MonthFrom(start, 3, Quarter).Done? ==>
              MonthFrom(start, 3, Quarter).value.start == start && MonthFrom(start, 3, Quarter).value.unit == Quarter
  {
  }

  lemma FirstOfMonthIndex(d: Date)
    ensures MonthIndex(FirstOfMonth(d)) == MonthIndex(d)
  {
  }

  lemma QuarterDone(ref: Date, offset: int)
    ensures ExtendedPeriodBounds(ref, Quarter, offset).Done? <==> LongInCalendar(ref, offset, Quarter)
    ensures ExtendedPeriodBounds(ref, Quarter, offset).Done? ==>
              ExtendedPeriodBounds(ref, Quarter, offset).value.unit == Quarter
  {
    hide AddDays, Ordinal, AddMonths, MonthFrom, MonthIndex, FirstOfMonth;
    FirstOfMonthIndex(ref);
    var start := AddMonths(FirstOfMonth(ref), ((ref.month - 1) / 3 + offset) * 3);
    if start.Done? {
      MonthsInCalendar(start.value, 3, Quarter);
      QuarterUnit(start.value);
    }
  }

  lemma QuarterCovers(ref: Date, offset: int, d: Date)
    requires ExtendedPeriodBounds(ref, Quarter, offset).Done?
    ensures Within(d, ExtendedPeriodBounds(ref, Quarter, offset).value) <==> InLongPeriod(d, ref, offset, Quarter)
  {
    hide MonthFrom, ExtendedPeriodBounds;
    QuarterStart(ref, offset);
    MonthsCover(ExtendedPeriodBounds(ref, Quarter, offset).value.start, 3, Quarter, d);
  }

  /** The bounds of an extended period hold exactly the dates of that period, and
      there are none exactly when it leaves the calendar. */
  lemma LongPeriodIs(ref: Date, offset: int, u: LongPeriod)
    ensures
      var b := ExtendedPeriodBounds(ref, u, offset);
      && (b.Done? <==> LongInCalendar(ref, offset, u))
      && (b.Done? ==> b.value.unit == u && forall d: Date :: Within(d, b.value) <==> InLongPeriod(d, ref, offset, u))
  {
    hide PeriodBounds, ExtendedPeriodBounds, Within;
    if u == Quarter {
      QuarterDone(ref, offset);
    } else {
      ExtendedAgrees(ref, u, offset);
      PeriodRaises(ref, offset, u);
    }
    var b := ExtendedPeriodBounds(ref, u, offset);
    if b.Done? {
      forall d: Date
        ensures Within(d, b.value) <==> InLongPeriod(d, ref, offset, u)
      {
        if u == Quarter {
          QuarterCovers(ref, offset, d);
        } else {
          PeriodsPartition(ref, u, offset, d);
        }
      }
      if u != Quarter {
        PeriodUnitIs(ref, offset, u);
      }
    }
  }

  /** A reading of a period: it raises exactly when the period leaves the calendar,
      and otherwise is a match that covers exactly its dates. */
  ghost predicate ReadsPeriod(r: Reading, ref: Date, offset: int, u: LongPeriod, basis: Basis) {
    && (r.Done? <==> LongInCalendar(ref, offset, u))
    && (r.Done? ==>
          && r.value.Some? && IsDayRange(r.value.value, u, basis)
          && forall d: Date :: Covers(r.value.value, d) <==> InLongPeriod(d, ref, offset, u))
  }

  lemma BoundsRead(g: Grammar, text: string, ref: Date, offset: int, u: LongPeriod, basis: Basis, r: Reading)
    requires
      var b := ExtendedPeriodBounds(ref, u, offset);
      r == if b.Raised? then Raised else Done(Some(OnBounds(g, text, b.value, basis)))
    ensures ReadsPeriod(r, ref, offset, u, basis)
  {
    hide BoundsText, ExtendedPeriodBounds, LongInCalendar, InLongPeriod;
    LongPeriodIs(ref, offset, u);
    if r.Done? {
      assert forall d: Date ::
          Covers(r.value.value, d) <==> Within(d, ExtendedPeriodBounds(ref, u, offset).value);
    }
  }

  /** "last/this/next week, month, year" is read as that period. */
  lemma BaseNamesPeriod(g: Grammar, text: string, ref: Date, offset: int, u: PeriodUnit)
    ensures ReadsPeriod(BaseMatch(g, text, Period(offset, u), ref), ref, offset, u, Relative)
  {
    hide BoundsText, PeriodBounds, ExtendedPeriodBounds, ReadsPeriod;
    ExtendedAgrees(ref, u, offset);
    BoundsRead(g, text, ref, offset, u, Relative, BaseMatch(g, text, Period(offset, u), ref));
  }

  /** "week, month or quarter of X" is read as the period around X. */
  lemma AroundNamesPeriod(g: Grammar, text: string, d: Date, u: AroundUnit, basis: Basis)
    ensures ReadsPeriod(AroundMatch(g, text, d, u, basis), d, 0, u, basis)
  {
    hide BoundsText, BoundsAround, ExtendedPeriodBounds, ReadsPeriod;
    AroundIsThisPeriod(d, u);
    BoundsRead(g, text, d, 0, u, basis, AroundMatch(g, text, d, u, basis));
  }

  // ---- absolute dates ------------------------------------------------------

  /** The dates an absolute expression means. */
  predicate IsOfAbsolute(a: Absolute, d: Date) {
    match a
    case OnDay(y, m, day) => d.year == y && d.month == m && d.day == day
    case InMonth(y, m) => d.year == y && d.month == m
    case InYear(y) => d.year == y
  }

  function AbsoluteUnit(a: Absolute): Unit {
    if a.OnDay? then Day else if a.InMonth? then Month else Year
  }

  /** An absolute date, month or year is the interval of exactly its dates, and is
      declined exactly when it has none. */
  lemma AbsoluteMeans(a: Absolute)
    ensures AbsoluteBounds(a).None? ==> forall d: Date :: !IsOfAbsolute(a, d)
    ensures AbsoluteBounds(a).Some? ==>
      && AbsoluteBounds(a).value.unit == AbsoluteUnit(a)
      && forall d: Date :: Within(d, AbsoluteBounds(a).value) <==> IsOfAbsolute(a, d)
  {
  }

  /** What `_parse_absolute_expression` finds written in a text. */
  function Written(g: Grammar, text: string): Option<Absolute> {
    var c := Collapse(text);
    if IsIsoShape(c) then
      Some(OnDay(100 * Number2(c[0], c[1]) + Number2(c[2], c[3]), Number2(c[5], c[6]), Number2(c[8], c[9])))
    else g.absolute(c)
  }

  lemma ParseAbsoluteIs(g: Grammar, text: string)
    ensures ParseAbsolute(g, text) == var a := Written(g, text); if a.None? then None else AbsoluteBounds(a.value)
  {
  }

  ghost predicate IsAbsolute(m: TemporalMatch, a: Absolute) {
    if a.OnDay? then IsOneDay(m, Day, ExplicitDate) && IsOfAbsolute(a, m.start.value.date)
    else IsDayRange(m, AbsoluteUnit(a), ExplicitDate) && forall d: Date :: Covers(m, d) <==> IsOfAbsolute(a, d)
  }

  /** A reading of what is written, if anything is: a day is a match on that day, a
      month or year one that covers exactly its dates, and it is declined exactly
      when nothing is written, or nothing that has a date. */
  ghost predicate ReadsWritten(m: Option<TemporalMatch>, a: Option<Absolute>) {
    && (m.None? ==> a.None? || forall d: Date :: !IsOfAbsolute(a.value, d))
    && (m.Some? ==> a.Some? && IsAbsolute(m.value, a.value))
  }

  lemma ExplicitMeans(g: Grammar, text: string)
    ensures ReadsWritten(ExplicitMatch(g, text), Written(g, text))
  {
    hide BoundsText, ParseAbsolute, Written;
    ParseAbsoluteIs(g, text);
    var m, a := ExplicitMatch(g, text), Written(g, text);
    if a.Some? {
      AbsoluteMeans(a.value);
      if m.Some? && !a.value.OnDay? {
        hide AbsoluteBounds, IsOfAbsolute;
        assert forall d: Date :: Covers(m.value, d) <==> Within(d, AbsoluteBounds(a.value).value);
      }
    }
  }

  // ---- every pattern of `_resolve_match` -----------------------------------

  /** What a reading of a base expression means. */
  ghost predicate ReadsBase(g: Grammar, text: string, shape: BaseShape, ref: Date, r: Reading)
    requires !shape.WeekBefore?
  {
    if NamesOneDay(shape) then ReadsDay(r, DayUnit(shape), (d: Date) => Names(shape, ref, d))
    else if shape.Period? then ReadsPeriod(r, ref, shape.offset, shape.unit, Relative)
    else if shape.Explicit? then
      r.Done? && ReadsWritten(r.value, Some(OnDay(shape.year, shape.month, shape.dayOfMonth)))
    else r.Done? && ReadsWritten(r.value, Written(g, text))
  }

  /** Each pattern of `_resolve_match` but "week before" gives the dates it names. */
  lemma BaseMeans(g: Grammar, text: string, shape: BaseShape, ref: Date)
    requires !shape.WeekBefore?
    ensures ReadsBase(g, text, shape, ref, BaseMatch(g, text, shape, ref))
  {
    hide BoundsText, ReadsDay, ReadsPeriod, DateMatch, PeriodBounds, ExplicitMatch;
    match shape
    case Period(offset, unit) => BaseNamesPeriod(g, text, ref, offset, unit);
    case Explicit(y, m, d) =>
    case Natural => ExplicitMeans(g, text);
    case _ => BaseNamesDay(g, text, shape, ref);
  }
}
