/** Which moments, days and spans the later patterns name: parts of a day, clock
    times, counted spans and durations. */
module NamedTimes {
  import opened Attempts
  import opened Calendar
  import opened Moments
  import opened Periods
  import opened Grammar
  import opened Branches
  import opened Meanings
  import opened NamedDates

  const HOUR := 3_600_000_000

  // ---- clock times ---------------------------------------------------------

  /** The hour written, on the half of the day that its mark asks for; a.m. and
      p.m. do not move an hour above 12. */
  predicate IsHour(c: Clock, hour: int) {
    if c.meridiem == NoMeridiem then hour == c.hour
    else hour % 12 == c.hour % 12 && (hour >= 12 <==> c.meridiem == PM || c.hour > 12)
  }

  predicate IsClockTime(c: Clock, m: Moment) {
    && IsHour(c, m.micros / HOUR)
    && m.micros / 60_000_000 % 60 == c.minute
    && m.micros / 1_000_000 % 60 == c.second
    && m.micros % 1_000_000 == c.fraction
  }

  lemma Sixties(q: int, r: int)
    requires 0 <= r < 60
    ensures (q * 60 + r) % 60 == r
  {
  }

  lemma Seconds(q: int, r: int)
    requires 0 <= r < 1_000_000
    ensures (q * 1_000_000 + r) / 1_000_000 == q && (q * 1_000_000 + r) % 1_000_000 == r
  {
  }

  lemma Minutes(q: int, r: int)
    requires 0 <= r < 60_000_000
    ensures (q * 60_000_000 + r) / 60_000_000 == q
  {
  }

  lemma Hours(q: int, r: int)
    requires 0 <= r < HOUR
    ensures (q * HOUR + r) / HOUR == q
  {
  }

  lemma TimeParts(hour: int, minute: int, second: int, fraction: int)
    requires 0 <= minute <= 59 && 0 <= second <= 59 && 0 <= fraction < 1_000_000
    ensures
      var t := (hour * 3600 + minute * 60 + second) * 1_000_000 + fraction;
      && t % 1_000_000 == fraction && t / 1_000_000 % 60 == second
      && t / 60_000_000 % 60 == minute && t / HOUR == hour
  {
    var t := (hour * 3600 + minute * 60 + second) * 1_000_000 + fraction;
    Seconds((hour * 60 + minute) * 60 + second, fraction);
    Sixties(hour * 60 + minute, second);
    Minutes(hour * 60 + minute, second * 1_000_000 + fraction);
    Sixties(hour, minute);
    Hours(hour, (minute * 60 + second) * 1_000_000 + fraction);
    assert t == ((hour * 60 + minute) * 60 + second) * 1_000_000 + fraction;
    assert t == (hour * 60 + minute) * 60_000_000 + (second * 1_000_000 + fraction);
    assert t == hour * HOUR + ((minute * 60 + second) * 1_000_000 + fraction);
  }

  function HourOf(c: Clock): int {
    if c.meridiem == PM && c.hour < 12 then c.hour + 12
    else if c.meridiem == AM && c.hour == 12 then 0
    else c.hour
  }

  lemma HourIs(c: Clock)
    requires c.hour <= 23
    ensures IsHour(c, HourOf(c)) && 0 <= HourOf(c) <= 23
  {
  }

  /** A clock time is read, on the given day, as the hour, minute, second and
      fraction written, and is declined exactly when one of them is too large. */
  lemma ClockMeans(c: Clock, d: Date)
    ensures ReadClock(c, d).Some? <==> c.hour <= 23 && c.minute <= 59 && c.second <= 59
    ensures ReadClock(c, d).Some? ==> ReadClock(c, d).value.date == d && IsClockTime(c, ReadClock(c, d).value)
  {
    if c.hour <= 23 && c.minute <= 59 && c.second <= 59 {
      HourIs(c);
      TimeParts(HourOf(c), c.minute, c.second, c.fraction);
      hide IsHour;
    }
  }

  // ---- points in a day -----------------------------------------------------

  predicate IsPoint(m: TemporalMatch, d: Date, micros: int, p: Precision) {
    && m.start.Some? && m.start.value.date == d && m.start.value.micros == micros
    && m.end.None? && m.precision == p && m.basis == Relative
  }

  predicate IsClockPoint(m: Option<TemporalMatch>, d: Date, clock: Option<Clock>, basis: Basis) {
    if clock.Some? && clock.value.hour <= 23 && clock.value.minute <= 59 && clock.value.second <= 59 then
      && m.Some? && m.value.start.Some? && m.value.start.value.date == d
      && IsClockTime(clock.value, m.value.start.value)
      && m.value.end.None? && m.value.precision == Exact && m.value.basis == basis
    else m.None?
  }

  /** A part of a day: 9, 14, 18 or 21 o'clock, noon, midnight or a clock time. */
  predicate IsPart(m: Option<TemporalMatch>, d: Date, part: DayPart) {
    match part
    case AtClock(c) => IsClockPoint(m, d, c, Relative)
    case Morning => m.Some? && IsPoint(m.value, d, 9 * HOUR, Whole(Day))
    case Afternoon => m.Some? && IsPoint(m.value, d, 14 * HOUR, Whole(Day))
    case Evening => m.Some? && IsPoint(m.value, d, 18 * HOUR, Whole(Day))
    case Night => m.Some? && IsPoint(m.value, d, 21 * HOUR, Whole(Day))
    case Noon => m.Some? && IsPoint(m.value, d, 12 * HOUR, Exact)
    case MidnightPart => m.Some? && IsPoint(m.value, d, 0, Exact)
  }

  lemma ClockPointMeans(g: Grammar, text: string, clock: Option<Clock>, d: Date, basis: Basis)
    ensures IsClockPoint(ExactMatch(g, text, ReadClockOn(clock, d), basis), d, clock, basis)
  {
    hide ReadClock, BoundsText, IsClockTime;
    if clock.Some? {
      ClockMeans(clock.value, d);
    }
  }

  lemma TimedDayMeans(g: Grammar, text: string, d: Date, part: DayPart)
    ensures IsPart(TimedDayMatch(g, text, d, part), d, part)
  {
    hide BoundsText, ReadClockOn, ExactMatch, IsClockPoint;
    if part.AtClock? {
      ClockPointMeans(g, text, part.clock, d, Relative);
    }
  }

  // ---- the later patterns that name one moment or day ----------------------

  predicate NamesMoment(shape: AdditionalShape) {
    || shape.Now? || shape.Tonight? || shape.NoonOrMidnight? || shape.TimedDay? || shape.PartOfPeriod?
    || shape.DayBeside? || shape.NamedWeekday?
  }

  /** What a reading of such a pattern means. */
  ghost predicate ReadsMoment(shape: AdditionalShape, ref: Moment, r: Reading) {
    match shape
    case Now => r.Done? && r.value.Some? && IsPoint(r.value.value, ref.date, ref.micros, Exact)
    case Tonight => r.Done? && r.value.Some? && IsPoint(r.value.value, ref.date, 21 * HOUR, Whole(Day))
    case NoonOrMidnight(noon) =>
      r.Done? && r.value.Some? && IsPoint(r.value.value, ref.date, if noon then 12 * HOUR else 0, Exact)
    case TimedDay(offset, part) => ReadsPart(ref.date, offset, part, r)
    case PartOfPeriod(offset, part) =>
      part.Morning? || part.Afternoon? || part.Evening? || part.Night? ==> ReadsPart(ref.date, offset, part, r)
    case DayBeside(ahead) => ReadsDay(r, Day, (d: Date) => IsBeside(d, ref.date, if ahead then 2 else -2))
    case NamedWeekday(direction, weekday) =>
      ReadsDay(r, Day, (d: Date) => IsDirected(d, ref.date, direction, weekday))
    case _ => false
  }

  /** A part of the day so many days away; it raises exactly when there is no such day. */
  ghost predicate ReadsPart(ref: Date, offset: int, part: DayPart, r: Reading) {
    if r.Raised? then forall d: Date :: !IsBeside(d, ref, offset)
    else exists d: Date :: IsBeside(d, ref, offset) && IsPart(r.value, d, part)
  }

  lemma PartReads(g: Grammar, text: string, ref: Date, offset: int, part: DayPart)
    ensures
      ReadsPart(ref, offset, part,
                var d := AddDays(ref, offset);
                if d.Raised? then Raised else Done(TimedDayMatch(g, text, d.value, part)))
  {
    hide TimedDayMatch, AddDays;
    var target := AddDays(ref, offset);
    if target.Done? {
      BesideIs(ref, offset, target.value);
      TimedDayMeans(g, text, target.value, part);
    } else {
      forall d: Date
        ensures !IsBeside(d, ref, offset)
      {
        BesideIs(ref, offset, d);
      }
    }
  }

  lemma DayBesideReads(g: Grammar, text: string, ref: Date, ahead: bool)
    ensures
      var days := if ahead then 2 else -2;
      ReadsDay(DateMatch(g, text, AddDays(ref, days), Day), Day, (d: Date) => IsBeside(d, ref, days))
  {
    hide DateMatch, AddDays, ReadsDay, IsBeside;
    var days := if ahead then 2 else -2;
    forall d: Date
      ensures IsBeside(d, ref, days) <==> AddDays(ref, days) == Done(d)
    {
      BesideIs(ref, days, d);
    }
    DateReads(g, text, AddDays(ref, days), Day, (d: Date) => IsBeside(d, ref, days));
  }

  lemma WeekdayReads(g: Grammar, text: string, ref: Date, direction: int, weekday: WeekdayNumber)
    ensures ReadsDay(DateMatch(g, text, DirectedDate(ref, direction, weekday), Day), Day,
                     (d: Date) => IsDirected(d, ref, direction, weekday))
  {
    hide DateMatch, DirectedDate, ReadsDay, IsDirected;
    forall d: Date
      ensures IsDirected(d, ref, direction, weekday) <==> DirectedDate(ref, direction, weekday) == Done(d)
    {
      DirectedIs(ref, direction, weekday, d);
    }
    DateReads(g, text, DirectedDate(ref, direction, weekday), Day,
              (d: Date) => IsDirected(d, ref, direction, weekday));
  }

  /** "now", "tonight", "noon", "tomorrow morning", "last night", "Friday" and their
      like are read as the moment or the day they name. */
  lemma AdditionalNamesMoment(g: Grammar, text: string, shape: AdditionalShape, ref: Moment)
    requires NamesMoment(shape)
    ensures ReadsMoment(shape, ref, AdditionalMatch(g, text, shape, ref))
  {
    hide BoundsText, ReadsPart, DateMatch, ReadsDay, AddDays, DirectedDate, IsDirected, IsBeside;
    if shape.DayBeside? {
      DayBesideReads(g, text, ref.date, shape.ahead);
    } else if shape.NamedWeekday? {
      WeekdayReads(g, text, ref.date, shape.direction, shape.weekday);
    } else if shape.TimedDay? {
      PartReads(g, text, ref.date, shape.offset, shape.part);
    } else if shape.PartOfPeriod? {
      PartReads(g, text, ref.date, shape.dayOffset, shape.part);
    }
  }

  // ---- the later patterns that name a period -------------------------------

  /** "last/this/next week, month, quarter, year" is read as that period, the quarter
      counted on from the reference's own month. */
  lemma AdditionalNamesPeriod(g: Grammar, text: string, offset: int, u: LongPeriod, ref: Moment)
    ensures ReadsPeriod(AdditionalMatch(g, text, ExtendedPeriod(offset, u), ref), ref.date, offset, u, Relative)
  {
    hide BoundsText, ExtendedPeriodBounds, ReadsPeriod;
    BoundsRead(g, text, ref.date, offset, u, Relative, AdditionalMatch(g, text, ExtendedPeriod(offset, u), ref));
  }

  /** A reading of a quarter: its three months of the year; the last quarter of year
      9999 raises with the years outside the calendar. */
  ghost predicate ReadsQuarter(r: Reading, year: int, quarter: int) {
    && (r.Done? <==> MIN_YEAR <= year <= MAX_YEAR && (year < MAX_YEAR || quarter < 4))
    && (r.Done? ==>
          && r.value.Some? && IsDayRange(r.value.value, Quarter, ExplicitDate)
          && forall d: Date :: Covers(r.value.value, d) <==> d.year == year && (d.month + 2) / 3 == quarter)
  }

  /** "Q2 2024" is read as that quarter. */
  lemma NamedQuarterMeans(g: Grammar, text: string, year: int, quarter: int)
    requires 1 <= quarter <= 4
    ensures ReadsQuarter(QuarterMatch(g, text, year, quarter), year, quarter)
  {
    hide BoundsText, MonthFrom;
    if MIN_YEAR <= year <= MAX_YEAR {
      var start := CalendarDate(year, 3 * quarter - 2, 1);
      MonthsInCalendar(start, 3, Quarter);
      QuarterUnit(start);
      if MonthFrom(start, 3, Quarter).Done? {
        var m := QuarterMatch(g, text, year, quarter).value.value;
        forall d: Date
          ensures Covers(m, d) <==> d.year == year && (d.month + 2) / 3 == quarter
        {
          MonthsCover(start, 3, Quarter, d);
          ThreeMonths(d, year, quarter);
        }
      }
    }
  }

  lemma ThreeMonths(d: Date, year: int, quarter: int)
    requires 1 <= quarter <= 4
    ensures 0 <= MonthIndex(d) - (year * 12 + 3 * quarter - 3) < 3 <==> d.year == year && (d.month + 2) / 3 == quarter
  {
  }

  /** Whether the days the weekend branch goes through are all in the calendar. */
  predicate WeekendInCalendar(ref: Date, offset: int) {
    var named := PeriodIndex(ref, Week) + WeekendOffset(ref, offset);
    1 <= named && (Weekday(ref) < 5 ==> 2 <= PeriodIndex(ref, Week) && 7 * named <= MAX_ORDINAL)
  }

  lemma WeekendDone(ref: Date, offset: int)
    ensures WeekendBounds(ref, offset).Done? <==> WeekendInCalendar(ref, offset)
  {
    hide Ordinal, FromOrdinal;
    OrdinalRange(ref);
    MondayArithmetic(Ordinal(ref));
    var week := PeriodIndex(ref, Week);
    assert Ordinal(ref) + 6 == 7 * week + Weekday(ref);
  }

  /** A weekend is read as the two days that `Periods.WeekendDays` describes. */
  lemma AdditionalNamesWeekend(g: Grammar, text: string, offset: int, ref: Moment)
    ensures
      var r := AdditionalMatch(g, text, Weekend(offset), ref);
      && (r.Done? <==> WeekendInCalendar(ref.date, offset))
      && (r.Done? ==>
            && r.value.Some? && IsDayRange(r.value.value, Week, Relative)
            && var start, end := r.value.value.start.value.date, r.value.value.end.value.date;
               && Weekday(start) == (if Weekday(ref.date) < 5 then 5 else 0)
               && PeriodIndex(start, Week) == PeriodIndex(ref.date, Week) + WeekendOffset(ref.date, offset)
               && Ordinal(end) == Ordinal(start) + 1)
  {
    WeekendDone(ref.date, offset);
    WeekendUnit(ref.date, offset);
    hide BoundsText, WeekendBounds, Ordinal, WeekendOffset;
    if WeekendBounds(ref.date, offset).Done? {
      WeekendDays(ref.date, offset);
    }
  }

  lemma WeekendUnit(ref: Date, offset: int)
    ensures WeekendBounds(ref, offset).Done? ==> WeekendBounds(ref, offset).value.unit == Week
  {
  }

  /** The week before or after a period has seven days, and lies right beside it. */
  lemma WeekBesideMeans(g: Grammar, text: string, ref: Date, before: bool, offset: int, u: LongPeriod)
    requires WeekBesideMatch(g, text, ref, before, offset, Some(u)).Done?
    ensures
      var r := WeekBesideMatch(g, text, ref, before, offset, Some(u)).value;
      && r.Some? && IsDayRange(r.value, Week, Relative)
      && var start, end := r.value.start.value.date, r.value.end.value.date;
         && Ordinal(end) == Ordinal(start) + 6
         && forall d: Date :: Ordinal(d) == (if before then Ordinal(start) + 7 else Ordinal(start) - 1) ==>
              InLongPeriod(d, ref, offset, u)
  {
    hide BoundsText, ExtendedPeriodBounds, InLongPeriod, Ordinal, FromOrdinal;
    LongPeriodIs(ref, offset, u);
    PeriodOrdered(ref, u, offset);
    var b := ExtendedPeriodBounds(ref, u, offset).value;
    var start := WeekBesideMatch(g, text, ref, before, offset, Some(u)).value.value.start.value.date;
    forall d: Date | Ordinal(d) == (if before then Ordinal(start) + 7 else Ordinal(start) - 1)
      ensures InLongPeriod(d, ref, offset, u)
    {
      OrdinalOrder(d, if before then b.start else b.end);
    }
  }

  // ---- counted spans and durations -----------------------------------------

  predicate Spans(m: TemporalMatch, start: Moment, end: Moment, u: Unit) {
    m.start == Some(start) && m.end == Some(end) && m.precision == Whole(u) && m.basis == Relative
  }

  /** How many units from the reference a prefixed span of that many units starts
      and ends: the past N end with the reference's own unit, the last N with the
      one before it, and the next N start with the next one, or with the reference's
      own after "over", "in" and their like. */
  function FirstUnit(direction: Direction, fromNow: bool, count: int): int {
    match direction
    case Past => 1 - count
    case Back => -count
    case Forward => if fromNow then 0 else 1
  }

  function LastUnit(direction: Direction, count: int): int {
    match direction
    case Past => 0
    case Back => -1
    case Forward => count
  }

  lemma CountRead(count: nat)
    ensures WholeCount(Some(count as real)) == if count == 0 then 1 else count
  {
    RoundWhole(count);
  }

  /** For a whole count, 0 read as 1, a prefixed span starts and ends that many
      units from the reference, and raises exactly when one of the two does. */
  lemma DirectedMeans(g: Grammar, text: string, ref: Moment, direction: Direction, fromNow: bool, count: nat, u: Unit)
    ensures
      var n: int := if count == 0 then 1 else count;
      var start := WholeShift(ref, FirstUnit(direction, fromNow, n), u);
      var end := WholeShift(ref, LastUnit(direction, n), u);
      var r := DirectedMatch(g, text, ref, Directed(direction, fromNow, Some(count as real), u));
      && (r.Done? <==> start.Done? && end.Done?)
      && (r.Done? ==> r.value.Some? && Spans(r.value.value, start.value, end.value, u))
  {
    hide BoundsText, WholeShift, ExtendedDateAt, WholeCount;
    CountRead(count);
    var n: int := if count == 0 then 1 else count;
    WholeShiftIs(ref, FirstUnit(direction, fromNow, n), u);
    WholeShiftIs(ref, LastUnit(direction, n), u);
    assert SpanOffsets(Directed(direction, fromNow, Some(count as real), u))
           == (FirstUnit(direction, fromNow, n), LastUnit(direction, n));
  }

  /** "for N units" runs from the reference to the moment N units on. */
  lemma DurationMeans(g: Grammar, text: string, ref: Moment, count: nat, u: Unit)
    ensures
      var end := WholeShift(ref, if count == 0 then 1 else count, u);
      var r := DurationMatch(g, text, ref, Duration(Some(count as real), u));
      if end.Raised? then r.Raised?
      else r.Done? && r.value.Some? && Spans(r.value.value, ref, end.value, u)
  {
    hide BoundsText, WholeShift, ExtendedDateAt, WholeCount;
    CountRead(count);
    WholeShiftIs(ref, if count == 0 then 1 else count, u);
  }

  // ---- the final patterns --------------------------------------------------

  /** "N units from now", as read last of all. */
  lemma ExtraNamesDay(g: Grammar, text: string, ref: Date, count: nat, u: DateUnit)
    ensures ReadsDay(DateMatch(g, text, ShiftDate(ref, count, u), u), u, (d: Date) => IsShifted(d, ref, count, u))
  {
    hide DateMatch, ShiftDate, ReadsDay, IsShifted;
    forall d: Date
      ensures IsShifted(d, ref, count, u) <==> ShiftDate(ref, count, u) == Done(d)
    {
      ShiftIs(ref, count, u, d);
    }
    DateReads(g, text, ShiftDate(ref, count, u), u, (d: Date) => IsShifted(d, ref, count, u));
  }

  /** The past N units end on the reference, the last N the day before it. */
  predicate SpansUnits(start: Date, end: Date, ref: Date, direction: Direction, over: bool, count: nat, u: DateUnit) {
    && IsShifted(start, ref, FirstUnit(direction, over, count), u)
    && match direction
       case Past => end == ref
       case Back => IsBeside(end, ref, -1)
       case Forward => IsShifted(end, ref, count, u)
  }

  lemma ExtraSpanMeans(ref: Date, direction: Direction, over: bool, count: nat, u: DateUnit)
    requires ExtraSpanBounds(ref, direction, over, count, u).Done?
    ensures
      var b := ExtraSpanBounds(ref, direction, over, count, u).value;
      b.unit == u && SpansUnits(b.start, b.end, ref, direction, over, count, u)
  {
    hide ShiftDate, AddDays, IsShifted;
    var b := ExtraSpanBounds(ref, direction, over, count, u).value;
    ShiftIs(ref, FirstUnit(direction, over, count), u, b.start);
    ShiftIs(ref, count, u, b.end);
    BesideIs(ref, -1, b.end);
  }
}
