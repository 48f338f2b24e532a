/** Which dates weekdays and counted spans name, said without the arithmetic that
    finds them. */
module Meanings {
  import opened Attempts
  import opened Calendar
  import opened Moments
  import opened Periods
  import opened Grammar
  import opened Branches

  // ---- weekdays ------------------------------------------------------------

  lemma WeekdayOfSum(n: int, k: int, w: int)
    requires 0 <= w < 7 && (n + 6) % 7 + k == w
    ensures (n + k + 6) % 7 == w && (n + k + 6) / 7 == (n + 6) / 7
  {
  }

  lemma WeekLater(n: int, w: int)
    ensures (n + 7 + 6) % 7 == (n + 6) % 7 && (n + 7 + 6) / 7 == (n + 6) / 7 + 1
  {
  }

  lemma WeekdayStep(n: int, w: int, back: int)
    requires 0 <= w < 7
    requires back == ((n + 6) % 7 - w) % 7
    ensures (n - back + 6) % 7 == w
  {
  }

  lemma WeekdayAhead(n: int, w: int)
    requires 0 <= w < 7
    ensures (n + (w - (n + 6) % 7) % 7 + 6) % 7 == w
  {
  }

  // ---- counted spans -------------------------------------------------------

  lemma WholeOffsets(direction: Direction, over: bool, count: nat, u: Unit)
    requires 1 <= count
    ensures SpanOffsets(Directed(direction, over, Some(count as real), u))
            == match direction
               case Past => (-(count as int - 1), 0)
               case Back => (-(count as int), -1)
               case Forward => (if over then 0 else 1, count as int)
  {
    RoundWhole(count);
  }

  lemma SpanShifts(ref: Date, direction: Direction, over: bool, count: nat, u: DateUnit)
    requires 1 <= count
    requires ExtraSpanBounds(ref, direction, over, count, u).Done? && ShiftDate(ref, -1, u).Done?
    ensures
      var (first, last) := SpanOffsets(Directed(direction, over, Some(count as real), u));
      var b := ExtraSpanBounds(ref, direction, over, count, u).value;
      && ShiftDate(ref, first, u) == Done(b.start)
      && (ShiftDate(ref, last, u) == Done(b.end) <==> direction != Back || u == Day)
  {
    hide SpanOffsets, ShiftDate, AddDays, AddMonths, Ordinal, FromOrdinal;
    WholeOffsets(direction, over, count, u);
    ShiftDateZero(ref, u);
    if direction == Back {
      if u == Day {
        DayShift(ref);
      } else {
        UnitBeforeIsNotDayBefore(ref, u);
      }
    }
  }

  lemma DayShift(d: Date)
    ensures ShiftDate(d, -1, Day) == AddDays(d, -1)
  {
  }

  lemma SameMidnight(a: Attempt<Date>, d: Date)
    ensures AtMidnight(a) == Done(Midnight(d)) <==> a == Done(d)
  {
  }

  /** A counted span has two readings, of which the prefixed one is used. From 1
      on they start together, and they end together except that the last N units
      end one unit before the reference there and one day before it here: the
      same date exactly for days. */
  lemma SpanReadings(ref: Moment, direction: Direction, over: bool, count: nat, u: DateUnit)
    requires 1 <= count
    requires ExtraSpanBounds(ref.date, direction, over, count, u).Done?
    requires ShiftDate(ref.date, -1, u).Done?
    ensures
      var (first, last) := SpanOffsets(Directed(direction, over, Some(count as real), u));
      var b := ExtraSpanBounds(ref.date, direction, over, count, u).value;
      && ExtendedDateAt(ref, first as real, u) == Done(Midnight(b.start))
      && (ExtendedDateAt(ref, last as real, u) == Done(Midnight(b.end)) <==> direction != Back || u == Day)
  {
    hide ExtendedDateAt, ShiftDate, SpanOffsets, ExtraSpanBounds, AtMidnight;
    var (first, last) := SpanOffsets(Directed(direction, over, Some(count as real), u));
    var b := ExtraSpanBounds(ref.date, direction, over, count, u).value;
    SpanShifts(ref.date, direction, over, count, u);
    ExtendedDateAtAgrees(ref, first, first as real, u);
    ExtendedDateAtAgrees(ref, last, last as real, u);
    SameMidnight(ShiftDate(ref.date, first, u), b.start);
    SameMidnight(ShiftDate(ref.date, last, u), b.end);
  }

  lemma UnitBeforeIsNotDayBefore(d: Date, u: DateUnit)
    requires u != Day && ShiftDate(d, -1, u).Done? && AddDays(d, -1).Done?
    ensures ShiftDate(d, -1, u) != AddDays(d, -1)
  {
    hide Ordinal, FromOrdinal;
    var e := AddDays(d, -1).value;
    if u != Week && ShiftDate(d, -1, u).value == e {
      MonthBefore(d, e);
    }
  }

  /** A date on the day before another is in its month, or is the last day of the
      month before. */
  lemma MonthBefore(d: Date, e: Date)
    requires Ordinal(e) + 1 == Ordinal(d)
    ensures MonthIndex(e) == MonthIndex(d) || (MonthIndex(e) == MonthIndex(d) - 1 && d.day == 1 && e.day >= 28)
  {
    if d.day > 1 {
      var f := CalendarDate(d.year, d.month, d.day - 1);
      assert Ordinal(f) == Ordinal(e);
      OrdinalOrder(e, f);
    } else {
      hide Ordinal;
      NextDayBack(d, e);
      DayBeforeMonth(d);
    }
  }

  lemma NextDayBack(d: Date, e: Date)
    requires Ordinal(e) + 1 == Ordinal(d)
    ensures AddDays(d, -1) == Done(e)
  {
    hide Ordinal, FromOrdinal;
    FromOrdinalInverts(e);
  }

  lemma SecondsInHalf(hour: int, minute: int, second: int, fraction: int)
    requires 0 <= hour <= 23 && 0 <= minute <= 59 && 0 <= second <= 59 && 0 <= fraction < 1_000_000
    ensures (hour * 3600 + minute * 60 + second) * 1_000_000 + fraction >= 43_200_000_000 <==> hour >= 12
  {
  }

  /** A marked clock time is from noon on exactly when it is marked p.m. or its
      hour is above 12: only the hour 12 is changed by a.m. */
  lemma MeridiemMeans(c: Clock, d: Date)
    requires c.meridiem != NoMeridiem && ReadClock(c, d).Some?
    ensures AtOrBefore(At(d, 12), ReadClock(c, d).value) <==> c.meridiem == PM || c.hour > 12
  {
    var hour := if c.meridiem == PM && c.hour < 12 then c.hour + 12
                else if c.meridiem == AM && c.hour == 12 then 0
                else c.hour;
    SecondsInHalf(hour, c.minute, c.second, c.fraction);
  }

  /** So "13 am" is read, as one in the afternoon. */
  lemma ThirteenInTheMorning(d: Date)
    ensures ReadClock(RawClock(13, 0, 0, 0, AM), d) == Some(At(d, 13))
  {
  }

  lemma ShortUnitsKeepClock(m: Moment, amount: real, u: Unit)
    requires IsShortUnit(u)
    ensures ExtendedDateAt(m, amount, u) == ExtendedShift(m, amount, u)
  {
    hide ExtendedShift;
  }

  /** A reading that starts at the moment, or raises with it. */
  function Started(m: Attempt<Moment>): Attempt<Option<Moment>> {
    var moment :- m;
    Done(Some(moment))
  }

  lemma PointStart(g: Grammar, text: string, ref: Moment, back: bool, amount: real, u: Unit)
    requires amount != 0.0
    ensures StartOf(PointMatch(g, text, ref, back, Some(amount), u))
            == Started(ExtendedDateAt(ref, if back then -amount else amount, u))
  {
    hide ExtendedDateAt, ExtendedShift, BoundsText, IsRendered, InOrder, IsShortUnit;
    if IsShortUnit(u) {
      ShortUnitsKeepClock(ref, if back then -amount else amount, u);
    }
  }

  lemma ZeroIsOne(g: Grammar, text: string, ref: Moment, back: bool, u: Unit)
    ensures PointMatch(g, text, ref, back, Some(0.0), u) == PointMatch(g, text, ref, back, Some(1.0), u)
  {
    hide ExtendedDateAt, ExtendedShift, BoundsText;
  }

  /** A whole number of units from the reference: midnight of the shifted date for
      days, weeks, months and years, of the date three months a unit away for
      quarters, and the exact span away for seconds, minutes and hours. */
  function WholeShift(ref: Moment, n: int, u: Unit): Attempt<Moment> {
    if IsShortUnit(u) then AddMicros(ref, SpanMicros(u) * n)
    else if u == Quarter then AtMidnight(AddMonths(ref.date, 3 * n))
    else AtMidnight(ShiftDate(ref.date, n, u))
  }

  lemma WholeShiftIs(ref: Moment, n: int, u: Unit)
    ensures ExtendedDateAt(ref, n as real, u) == WholeShift(ref, n, u)
  {
    if IsShortUnit(u) {
      WholeSpan(n, u);
    } else if u == Quarter {
      WholeMonths(n, u);
      hide AddMonths, MonthCount;
    } else {
      ExtendedDateAtAgrees(ref, n, n as real, u);
    }
  }

  /** "in N units" and "N units ago" name, for every unit, the moment a whole N of
      them ahead or back, a count of 0 read as 1. */
  lemma PointMeans(g: Grammar, text: string, ref: Moment, back: bool, count: nat, u: Unit)
    ensures
      var n: int := if count == 0 then 1 else count;
      StartOf(PointMatch(g, text, ref, back, Some(count as real), u))
      == Started(WholeShift(ref, if back then -n else n, u))
  {
    hide WholeShift, ExtendedDateAt, PointMatch, StartOf, Started;
    var n: int := if count == 0 then 1 else count;
    var signed := if back then -n else n;
    if count == 0 {
      ZeroIsOne(g, text, ref, back, u);
    }
    PointStart(g, text, ref, back, n as real, u);
    WholeShiftIs(ref, signed, u);
  }

  /** Fractional counts lie in order among them: a greater count never names an
      earlier point ahead, nor a later one back. */
  lemma PointsInOrder(g: Grammar, text: string, ref: Moment, back: bool, x: real, y: real, u: Unit)
    requires 0.0 < x <= y
    requires StartOf(PointMatch(g, text, ref, back, Some(x), u)).Done?
    requires StartOf(PointMatch(g, text, ref, back, Some(y), u)).Done?
    ensures
      var near := StartOf(PointMatch(g, text, ref, back, Some(x), u));
      var far := StartOf(PointMatch(g, text, ref, back, Some(y), u));
      && near.value.Some? && far.value.Some?
      && if back then AtOrBefore(far.value.value, near.value.value) else AtOrBefore(near.value.value, far.value.value)
  {
    hide ExtendedDateAt, PointMatch, AtOrBefore, StartOf;
    PointStart(g, text, ref, back, x, u);
    PointStart(g, text, ref, back, y, u);
    if back {
      ExtendedDateAtMonotone(ref, -y, -x, u);
    } else {
      ExtendedDateAtMonotone(ref, x, y, u);
    }
  }
}
