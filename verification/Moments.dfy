/** Wall-clock datetimes in one zone, and the three ways the temporal code
    shifts a date or a datetime by a number of units. */
module Moments {
  import opened Attempts
  import opened Calendar

  const MICROS_PER_SECOND := 1_000_000
  const MICROS_PER_DAY := 86_400_000_000

  datatype RawMoment = RawMoment(date: Date, micros: int)

  /** `datetime`: a date and the microseconds since its midnight. */
  type Moment = m: RawMoment | 0 <= m.micros < MICROS_PER_DAY witness RawMoment(CalendarDate(1, 1, 1), 0)

  datatype Unit = Second | Minute | Hour | Day | Week | Month | Quarter | Year

  function Midnight(d: Date): Moment {
    RawMoment(d, 0)
  }

  function At(d: Date, hour: int): Moment
    requires 0 <= hour < 24
  {
    RawMoment(d, hour * 3600 * MICROS_PER_SECOND)
  }

  /** `a <= b` on datetimes that share a zone. */
  predicate AtOrBefore(a: Moment, b: Moment) {
    Before(a.date, b.date) || (a.date == b.date && a.micros <= b.micros)
  }

  function Micros(m: Moment): int {
    Ordinal(m.date) * MICROS_PER_DAY + m.micros
  }

  lemma MicrosOrder(a: Moment, b: Moment)
    ensures AtOrBefore(a, b) <==> Micros(a) <= Micros(b)
  {
    OrdinalOrder(a.date, b.date);
  }

  /** `m + timedelta(microseconds=n)`. */
  function AddMicros(m: Moment, n: int): (r: Attempt<Moment>)
    ensures r.Done? ==> Micros(r.value) == Micros(m) + n
  {
    var total := Micros(m) + n;
    var day := total / MICROS_PER_DAY;
    if 1 <= day <= MAX_ORDINAL then Done(RawMoment(FromOrdinal(day), total % MICROS_PER_DAY)) else Raised
  }

  // ---- rounding ------------------------------------------------------------

  /** `round(x)`, also the rounding of `timedelta(seconds=x)`: halves go to even. */
  function RoundHalfEven(x: real): (n: int)
    ensures -0.5 <= x - n as real <= 0.5
    ensures x - n as real == 0.5 || x - n as real == -0.5 ==> n % 2 == 0
  {
    var low := x.Floor;
    var rest := x - low as real;
    if rest < 0.5 || (rest == 0.5 && low % 2 == 0) then low else low + 1
  }

  /** `int(x)`: towards zero. */
  function Truncate(x: real): (n: int)
    ensures if x >= 0.0 then n as real <= x < (n + 1) as real else (n - 1) as real < x <= n as real
  {
    if x >= 0.0 then x.Floor else -((-x).Floor)
  }

  // ---- shifting ------------------------------------------------------------

  predicate IsShortUnit(u: Unit) {
    u == Second || u == Minute || u == Hour
  }

  /** The units `_shift_date` knows. */
  predicate IsDateUnit(u: Unit) {
    u == Day || u == Week || u == Month || u == Year
  }

  predicate IsSpanUnit(u: Unit) {
    IsShortUnit(u) || u == Day || u == Week
  }

  /** `_shift_date`. */
  function ShiftDate(d: Date, n: int, u: Unit): Attempt<Date>
    requires IsDateUnit(u)
  {
    match u
    case Day => AddDays(d, n)
    case Week => AddDays(d, 7 * n)
    case Year => AddMonths(d, n * 12)
    case _ => AddMonths(d, n)
  }

  /** `timedelta(seconds=amount * seconds)`, in microseconds. */
  function Span(amount: real, u: Unit): int
    requires IsSpanUnit(u)
  {
    match u
    case Second => RoundHalfEven(amount * 1_000_000.0)
    case Minute => RoundHalfEven(amount * 60_000_000.0)
    case Hour => RoundHalfEven(amount * 3_600_000_000.0)
    case Day => RoundHalfEven(amount * 86_400_000_000.0)
    case _ => RoundHalfEven(amount * 604_800_000_000.0)
  }

  /** `int(months)`. */
  function MonthCount(amount: real, u: Unit): int {
    if u == Quarter then Truncate(amount * 3.0)
    else if u == Year then Truncate(amount * 12.0)
    else Truncate(amount)
  }

  /** `_extended_shift`. */
  function ExtendedShift(m: Moment, amount: real, u: Unit): Attempt<Moment> {
    if IsSpanUnit(u) then
      AddMicros(m, Span(amount, u))
    else
      var target :- AddMonths(m.date, MonthCount(amount, u));
      Done(RawMoment(target, m.micros))
  }

  /** `_extended_date_at`: midnight of the shifted day, except for clock units. */
  function ExtendedDateAt(m: Moment, amount: real, u: Unit): Attempt<Moment> {
    var shifted :- ExtendedShift(m, amount, u);
    Done(if IsShortUnit(u) then shifted else Midnight(shifted.date))
  }

  /** The "N units ago" arithmetic of `_resolve_match`. */
  function AgoDate(d: Date, count: int, u: Unit): Attempt<Date>
    requires IsDateUnit(u)
  {
    if u == Day || u == Week then AddDays(d, if u == Day then -count else -count * 7)
    else if u == Month then AddMonths(d, -count)
    else AddMonths(d, -count * 12)
  }

  // ---- the implementations agree -------------------------------------------

  function AtMidnight(d: Attempt<Date>): Attempt<Moment> {
    var day :- d;
    Done(Midnight(day))
  }

  lemma WholeDays(m: Moment, n: int)
    ensures AddMicros(m, n * MICROS_PER_DAY).Done? <==> AddDays(m.date, n).Done?
    ensures AddDays(m.date, n).Done? ==>
      AddMicros(m, n * MICROS_PER_DAY) == Done(RawMoment(AddDays(m.date, n).value, m.micros))
  {
    var total := Micros(m) + n * MICROS_PER_DAY;
    assert total == (Ordinal(m.date) + n) * MICROS_PER_DAY + m.micros;
    assert total / MICROS_PER_DAY == Ordinal(m.date) + n;
    assert total % MICROS_PER_DAY == m.micros;
  }

  function SpanMicros(u: Unit): int
    requires IsSpanUnit(u)
    ensures SpanMicros(u) > 0
  {
    match u
    case Second => 1_000_000
    case Minute => 60_000_000
    case Hour => 3_600_000_000
    case Day => MICROS_PER_DAY
    case _ => 7 * MICROS_PER_DAY
  }

  /** Sixty seconds a minute, sixty minutes an hour, twenty-four hours a day, seven days
      a week. */
  lemma UnitsNest()
    ensures SpanMicros(Second) == 1_000_000 && SpanMicros(Minute) == 60 * SpanMicros(Second)
    ensures SpanMicros(Hour) == 60 * SpanMicros(Minute) && SpanMicros(Day) == 24 * SpanMicros(Hour)
    ensures SpanMicros(Week) == 7 * SpanMicros(Day)
  {
  }

  lemma RoundWhole(n: int)
    ensures RoundHalfEven(n as real) == n && Truncate(n as real) == n
  {
  }

  lemma WholeSpan(n: int, u: Unit)
    requires IsSpanUnit(u)
    ensures Span(n as real, u) == SpanMicros(u) * n
  {
    RoundWhole(SpanMicros(u) * n);
  }

  lemma WholeMonths(n: int, u: Unit)
    ensures MonthCount(n as real, u) == if u == Quarter then 3 * n else if u == Year then 12 * n else n
  {
    RoundWhole(MonthCount(n as real, u));
  }

  lemma DayShiftsAgree(m: Moment, n: int, u: Unit)
    requires u == Day || u == Week
    ensures ExtendedShift(m, n as real, u) ==
            if ShiftDate(m.date, n, u).Done? then Done(RawMoment(ShiftDate(m.date, n, u).value, m.micros)) else Raised
  {
    var days := if u == Day then n else 7 * n;
    assert Span(n as real, u) == days * MICROS_PER_DAY by {
      WholeSpan(n, u);
    }
    assert ShiftDate(m.date, n, u) == AddDays(m.date, days);
    WholeDays(m, days);
  }

  lemma MonthShiftsAgree(m: Moment, n: int, u: Unit)
    requires u == Month || u == Year
    ensures ExtendedShift(m, n as real, u) ==
            if ShiftDate(m.date, n, u).Done? then Done(RawMoment(ShiftDate(m.date, n, u).value, m.micros)) else Raised
  {
    WholeMonths(n, u);
    hide AddMonths, MonthCount;
  }

  /** For every whole count, of either sign, the extended shift keeps the clock
      time and moves the date exactly as `_shift_date` does; both raise together. */
  lemma ShiftsAgree(m: Moment, n: int, u: Unit)
    requires IsDateUnit(u)
    ensures ExtendedShift(m, n as real, u) ==
            if ShiftDate(m.date, n, u).Done? then Done(RawMoment(ShiftDate(m.date, n, u).value, m.micros)) else Raised
  {
    if u == Day || u == Week {
      DayShiftsAgree(m, n, u);
    } else {
      MonthShiftsAgree(m, n, u);
    }
  }

  /** So `_extended_date_at` is midnight of `_shift_date`. */
  lemma ExtendedDateAtAgrees(m: Moment, n: int, amount: real, u: Unit)
    requires IsDateUnit(u)
    requires amount == n as real
    ensures ExtendedDateAt(m, amount, u) == AtMidnight(ShiftDate(m.date, n, u))
  {
    ShiftsAgree(m, n, u);
  }

  lemma AgoIsNegativeShift(d: Date, count: int, u: Unit)
    requires IsDateUnit(u)
    ensures AgoDate(d, count, u) == ShiftDate(d, -count, u)
  {
  }

  /** "N units ago" read by the extended path is midnight of the date that
      `_resolve_match` reads. */
  lemma ExtendedAgo(m: Moment, count: int, amount: real, u: Unit)
    requires IsDateUnit(u)
    requires amount == (-count) as real
    ensures ExtendedDateAt(m, amount, u) == AtMidnight(AgoDate(m.date, count, u))
  {
    hide ShiftDate, AgoDate, ExtendedDateAt;
    AgoIsNegativeShift(m.date, count, u);
    ExtendedDateAtAgrees(m, -count, amount, u);
  }

  /** But the extended path turns a count of 0 into 1 and `_resolve_match` does
      not: the two agree, raising included, exactly when the count is not 0. */
  lemma AgoPathsAgreeUnlessZero(m: Moment, count: int, amount: real, u: Unit)
    requires IsDateUnit(u)
    requires amount == (if count == 0 then -1 else -count) as real
    ensures ExtendedDateAt(m, amount, u) == AtMidnight(AgoDate(m.date, count, u)) <==> count != 0
  {
    hide AgoDate, ShiftDate, ExtendedDateAt, AtMidnight;
    if count == 0 {
      ExtendedAgo(m, 1, amount, u);
      ZeroShift(m.date, u);
      if AgoDate(m.date, 1, u).Done? {
        OneUnitMoves(m.date, u);
      }
      MidnightsDiffer(AgoDate(m.date, 1, u), AgoDate(m.date, 0, u));
    } else {
      ExtendedAgo(m, count, amount, u);
    }
  }

  lemma MidnightsDiffer(a: Attempt<Date>, b: Attempt<Date>)
    requires a != b
    ensures AtMidnight(a) != AtMidnight(b)
  {
  }

  lemma ZeroShift(d: Date, u: Unit)
    requires IsDateUnit(u)
    ensures ShiftDate(d, 0, u) == Done(d) && AgoDate(d, 0, u) == Done(d)
  {
    AddNoDays(d);
    AddNoMonths(d);
  }

  lemma OneUnitMoves(d: Date, u: Unit)
    requires IsDateUnit(u)
    requires AgoDate(d, 1, u).Done?
    ensures AgoDate(d, 1, u).value != d
  {
  }

  // ---- order ---------------------------------------------------------------

  lemma SpanMonotone(x: real, y: real, u: Unit)
    requires IsSpanUnit(u)
    requires x <= y
    ensures Span(x, u) <= Span(y, u)
  {
  }

  lemma MonthCountMonotone(x: real, y: real, u: Unit)
    requires x <= y
    ensures MonthCount(x, u) <= MonthCount(y, u)
  {
  }

  lemma AddMicrosMonotone(m: Moment, i: int, j: int)
    requires i <= j
    requires AddMicros(m, i).Done? && AddMicros(m, j).Done?
    ensures AtOrBefore(AddMicros(m, i).value, AddMicros(m, j).value)
  {
    MicrosOrder(AddMicros(m, i).value, AddMicros(m, j).value);
  }

  lemma ExtendedShiftMonotone(m: Moment, x: real, y: real, u: Unit)
    requires x <= y
    requires ExtendedShift(m, x, u).Done? && ExtendedShift(m, y, u).Done?
    ensures AtOrBefore(ExtendedShift(m, x, u).value, ExtendedShift(m, y, u).value)
  {
    if IsSpanUnit(u) {
      SpanMonotone(x, y, u);
      AddMicrosMonotone(m, Span(x, u), Span(y, u));
    } else {
      MonthCountMonotone(x, y, u);
      AddMonthsOrder(m.date, MonthCount(x, u), MonthCount(y, u));
    }
  }

  /** `_extended_date_at` is monotone in the amount, fractions included. */
  lemma ExtendedDateAtMonotone(m: Moment, x: real, y: real, u: Unit)
    requires x <= y
    requires ExtendedDateAt(m, x, u).Done? && ExtendedDateAt(m, y, u).Done?
    ensures AtOrBefore(ExtendedDateAt(m, x, u).value, ExtendedDateAt(m, y, u).value)
  {
    ExtendedShiftMonotone(m, x, y, u);
  }

  /** A whole positive count never lands before the reference, although the
      result is floored to midnight and the reference is not. */
  lemma ExtendedDateAtAhead(m: Moment, n: int, u: Unit)
    requires 1 <= n
    requires ExtendedDateAt(m, n as real, u).Done?
    ensures AtOrBefore(m, ExtendedDateAt(m, n as real, u).value)
  {
    var target := ExtendedDateAt(m, n as real, u).value;
    if IsShortUnit(u) {
      WholeSpan(n, u);
      MicrosOrder(m, target);
    } else if IsDateUnit(u) {
      ExtendedDateAtAgrees(m, n, n as real, u);
      ShiftAhead(m.date, n, u);
    } else {
      WholeMonths(n, u);
      EarlierMonth(m.date, target.date);
    }
  }

  lemma ShiftAhead(d: Date, n: int, u: Unit)
    requires IsDateUnit(u)
    requires 1 <= n
    requires ShiftDate(d, n, u).Done?
    ensures Before(d, ShiftDate(d, n, u).value)
  {
    var e := ShiftDate(d, n, u).value;
    if u == Day || u == Week {
      OrdinalOrder(d, e);
    } else {
      EarlierMonth(d, e);
    }
  }
}
