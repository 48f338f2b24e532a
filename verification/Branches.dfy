/** The branches of the temporal resolvers that compute bounds without
    resolving a sub-expression. */
module Branches {
  import opened Attempts
  import opened Calendar
  import opened Moments
  import opened Periods
  import opened Text
  import opened Iso
  import opened Grammar

  // ---- matches -------------------------------------------------------------

  predicate IsDateGranularity(p: Precision) {
    p.Whole? && !IsShortUnit(p.unit)
  }

  function MomentText(g: Grammar, m: Moment, p: Precision): string {
    if IsDateGranularity(p) && m.micros == 0 then IsoText(m.date) else g.stamp(m)
  }

  function BoundsText(g: Grammar, start: Moment, end: Option<Moment>, p: Precision): string {
    if end.None? then MomentText(g, start, p)
    else MomentText(g, start, p) + THROUGH + MomentText(g, end.value, p)
  }

  /** `_resolved_match`. */
  function Resolved(g: Grammar, text: string, start: Moment, end: Option<Moment>, p: Precision, basis: Basis)
      : TemporalMatch
  {
    TemporalMatch(text, BoundsText(g, start, end, p), Some(start), end, p, basis)
  }

  /** `_resolved_date_match` with and without an end. */
  function OnDate(g: Grammar, text: string, d: Date, u: Unit, basis: Basis): TemporalMatch {
    Resolved(g, text, Midnight(d), None, Whole(u), basis)
  }

  function OnDates(g: Grammar, text: string, start: Date, end: Date, u: Unit, basis: Basis): TemporalMatch {
    Resolved(g, text, Midnight(start), Some(Midnight(end)), Whole(u), basis)
  }

  function OnBounds(g: Grammar, text: string, b: Bounds, basis: Basis): TemporalMatch {
    OnDates(g, text, b.start, b.end, b.unit, basis)
  }

  /** `_unresolved`. */
  function Unresolved(text: string, basis: Basis): TemporalMatch {
    TemporalMatch(text, text, None, None, Unknown, basis)
  }

  predicate InOrder(m: TemporalMatch) {
    m.end.Some? ==> m.start.Some? && AtOrBefore(m.start.value, m.end.value)
  }

  predicate IsRendered(g: Grammar, m: TemporalMatch) {
    m.start.Some? && m.normalized == BoundsText(g, m.start.value, m.end, m.precision)
  }

  /** A match either shows its bounds or keeps the words it could not resolve. */
  predicate IsFaithful(g: Grammar, text: string, m: TemporalMatch) {
    if m.start.Some? then IsRendered(g, m) else m.end.None? && Words(m.normalized) == Words(text)
  }

  predicate Ordered(r: Reading) {
    r.Done? && r.value.Some? ==> InOrder(r.value.value)
  }

  predicate Rendered(g: Grammar, r: Reading) {
    r.Done? && r.value.Some? ==> IsRendered(g, r.value.value)
  }

  predicate Faithful(g: Grammar, text: string, r: Reading) {
    r.Done? && r.value.Some? ==> IsFaithful(g, text, r.value.value)
  }

  /** The two predicates above for a sub-expression's match. */
  predicate Bounded(g: Grammar, r: Reading) {
    r.Done? && r.value.Some? ==>
      if r.value.value.start.Some? then IsRendered(g, r.value.value) else r.value.value.end.None?
  }

  /** `_interval_precision`: the coarser of the two, the first on a tie. */
  function Rank(p: Precision): int {
    match p
    case Unknown => 0
    case Exact => 2
    case Whole(u) =>
      match u
      case Day => 3
      case Week => 4
      case Month => 5
      case Quarter => 6
      case Year => 7
      case _ => 1
  }

  function Coarser(a: Precision, b: Precision): (p: Precision)
    ensures p == a || p == b
    ensures Rank(p) >= Rank(a) && Rank(p) >= Rank(b)
    ensures Rank(a) == Rank(b) ==> p == a
  {
    if Rank(a) >= Rank(b) then a else b
  }

  // ---- absolute dates ------------------------------------------------------

  /** `_parse_absolute_expression`, None where its ValueErrors are caught. */
  function ParseAbsolute(g: Grammar, text: string): Option<Bounds>
  {
    var c := Collapse(text);
    if IsIsoShape(c) then
      match IsoDate(c)
      case None => None
      case Some(d) => Some(Bounds(d, d, Day))
    else
      match g.absolute(c)
      case None => None
      case Some(a) => AbsoluteBounds(a)
  }

  function AbsoluteBounds(a: Absolute): Option<Bounds> {
    match a
    case OnDay(y, m, d) =>
      if IsDate(y, m, d) then Some(Bounds(CalendarDate(y, m, d), CalendarDate(y, m, d), Day)) else None
    case InMonth(y, m) =>
      if IsDate(y, m, 1) then Some(Bounds(CalendarDate(y, m, 1), LastOfMonth(y, m), Month)) else None
    case InYear(y) =>
      if IsDate(y, 1, 1) then Some(Bounds(CalendarDate(y, 1, 1), CalendarDate(y, 12, 31), Year)) else None
  }

  /** `_resolve_explicit_match`: a day has no end. */
  function ExplicitMatch(g: Grammar, text: string): (m: Option<TemporalMatch>)
    ensures m.Some? ==> InOrder(m.value) && IsRendered(g, m.value) && m.value.basis == ExplicitDate
  {
    match ParseAbsolute(g, text)
    case None => None
    case Some(b) =>
      Some(if b.unit == Day then OnDate(g, text, b.start, Day, ExplicitDate) else OnBounds(g, text, b, ExplicitDate))
  }

  /** `_resolve_week_before`: only a single day has a week before it here. */
  function WeekBeforeMatch(g: Grammar, text: string, target: string): (m: Option<TemporalMatch>)
    ensures m.Some? ==> InOrder(m.value) && IsRendered(g, m.value)
    ensures m.Some? ==> m.value.end.None? && ParseAbsolute(g, target).Some?
                        && Ordinal(m.value.start.value.date) + 7 == Ordinal(ParseAbsolute(g, target).value.start)
  {
    match ParseAbsolute(g, target)
    case None => None
    case Some(b) =>
      if b.unit != Day || AddDays(b.start, -7).Raised? then None
      else Some(OnDate(g, text, AddDays(b.start, -7).value, Day, Relative))
  }

  /** `_parse_time_expression` after its full match. */
  function ReadClock(c: Clock, d: Date): (m: Option<Moment>)
    ensures m.Some? ==> m.value.date == d
  {
    var hour := if c.meridiem == PM && c.hour < 12 then c.hour + 12
                else if c.meridiem == AM && c.hour == 12 then 0
                else c.hour;
    if hour > 23 || c.minute > 59 || c.second > 59 then None
    else Some(RawMoment(d, (hour * 3600 + c.minute * 60 + c.second) * MICROS_PER_SECOND + c.fraction))
  }

  function ReadClockOn(c: Option<Clock>, d: Date): (m: Option<Moment>)
    ensures m.Some? ==> m.value.date == d
  {
    if c.None? then None else ReadClock(c.value, d)
  }

  function ExactMatch(g: Grammar, text: string, at: Option<Moment>, basis: Basis): (m: Option<TemporalMatch>)
    ensures m.Some? ==> InOrder(m.value) && IsRendered(g, m.value) && m.value.basis == basis
    ensures m.Some? <==> at.Some?
    ensures m.Some? ==> m.value.start == at && m.value.end.None?
  {
    if at.None? then None else Some(Resolved(g, text, at.value, None, Exact, basis))
  }

  /** `_parse_exact_value`. */
  function ParseExact(g: Grammar, text: string): (m: Option<TemporalMatch>)
    ensures m.Some? ==> InOrder(m.value) && IsRendered(g, m.value) && m.value.basis == ExplicitDate
    ensures m.Some? ==> m.value.start.Some? && m.value.end.None?
  {
    var c := StripLead(Collapse(text), ["on", "at"]);
    if IsIsoShape(c) && IsoDate(c).Some? then
      Some(OnDate(g, c, IsoDate(c).value, Day, ExplicitDate))
    else if g.isoMoment(c).Some? then
      ExactMatch(g, c, g.isoMoment(c), ExplicitDate)
    else
      match g.naturalMoment(c)
      case None => None
      case Some((date, clock)) =>
        match ParseAbsolute(g, date)
        case None => None
        case Some(b) => ExactMatch(g, c, ReadClockOn(clock, b.start), ExplicitDate)
  }

  // ---- weekdays ------------------------------------------------------------

  /** last/this/next weekday: "this" is the weekday of the current Monday week. */
  function DirectedDate(ref: Date, direction: int, weekday: WeekdayNumber): Attempt<Date> {
    var monday :- AddDays(ref, -Weekday(ref));
    if direction < 0 then
      var since := (Weekday(ref) - weekday) % 7;
      AddDays(ref, -(if since == 0 then 7 else since))
    else if direction == 0 then AddDays(monday, weekday)
    else AddDays(monday, 7 + weekday)
  }

  /** A bare weekday read by `_resolve_match`: on or after the reference. */
  function OnOrAfter(ref: Date, weekday: WeekdayNumber): Attempt<Date> {
    AddDays(ref, (weekday - Weekday(ref)) % 7)
  }

  /** A bare weekday is "this week" through `_resolve_additional_expression`
      and "on or after" through `_resolve_match`: the two name one date
      exactly when the weekday is not yet past in the reference's week. */
  lemma BareWeekdayReadings(ref: Date, weekday: WeekdayNumber)
    requires DirectedDate(ref, 0, weekday).Done? && OnOrAfter(ref, weekday).Done?
    ensures DirectedDate(ref, 0, weekday) == OnOrAfter(ref, weekday) <==> Weekday(ref) <= weekday
  {
    hide Ordinal, FromOrdinal;
    var monday := AddDays(ref, -Weekday(ref)).value;
    AddDaysComposes(ref, -Weekday(ref), weekday);
    var n := weekday - Weekday(ref);
    assert n % 7 == if n < 0 then n + 7 else n;
  }

  // ---- "N units" spans -----------------------------------------------------

  /** The counted spans of `_resolve_extra_expression`. */
  function ExtraSpanBounds(ref: Date, direction: Direction, over: bool, count: nat, u: DateUnit): Attempt<Bounds> {
    match direction
    case Past =>
      var start :- ShiftDate(ref, -(count as int - 1), u);
      Done(Bounds(start, ref, u))
    case Back =>
      var start :- ShiftDate(ref, -(count as int), u);
      var end :- AddDays(ref, -1);
      Done(Bounds(start, end, u))
    case Forward =>
      var start :- ShiftDate(ref, if over then 0 else 1, u);
      var end :- ShiftDate(ref, count, u);
      Done(Bounds(start, end, u))
  }

  lemma ShiftDateOrder(d: Date, m: int, n: int, u: DateUnit)
    requires ShiftDate(d, m, u).Done? && ShiftDate(d, n, u).Done?
    ensures m <= n <==> NotAfter(ShiftDate(d, m, u).value, ShiftDate(d, n, u).value)
  {
    match u
    case Day => AddDaysOrder(d, m, n);
    case Week => AddDaysOrder(d, 7 * m, 7 * n);
    case Year => AddMonthsOrder(d, n * 12, m * 12);
    case _ => AddMonthsOrder(d, n, m);
  }

  lemma ShiftDateZero(d: Date, u: DateUnit)
    ensures ShiftDate(d, 0, u) == Done(d)
  {
    AddNoDays(d);
    AddNoMonths(d);
  }

  /** Those spans run forwards exactly when the count is at least 1, or when it
      is 0 in an "over the next" span: a count of 0 would be inverted. */
  lemma ExtraSpanOrder(ref: Date, direction: Direction, over: bool, count: nat, u: DateUnit)
    requires ExtraSpanBounds(ref, direction, over, count, u).Done?
    ensures
      var b := ExtraSpanBounds(ref, direction, over, count, u).value;
      NotAfter(b.start, b.end) <==> count >= 1 || (direction == Forward && over)
  {
    hide AddDays, AddMonths, Ordinal;
    ShiftDateZero(ref, u);
    match direction
    case Past => ShiftDateOrder(ref, -(count as int - 1), 0, u);
    case Back =>
      if count == 0 {
        OrdinalOrder(ref, AddDays(ref, -1).value);
      } else {
        BackSpanOrder(ref, count, u);
      }
    case Forward => ShiftDateOrder(ref, if over then 0 else 1, count, u);
  }

  lemma BackSpanOrder(ref: Date, count: int, u: DateUnit)
    requires 1 <= count
    requires ShiftDate(ref, -count, u).Done? && AddDays(ref, -1).Done?
    ensures NotAfter(ShiftDate(ref, -count, u).value, AddDays(ref, -1).value)
  {
    var start, end := ShiftDate(ref, -count, u).value, AddDays(ref, -1).value;
    ShiftDateZero(ref, u);
    ShiftDateOrder(ref, 0, -count, u);
    OrdinalOrder(start, ref);
    OrdinalOrder(end, start);
  }

  /** `max(1, round(count or 1))`. */
  function WholeCount(count: Option<real>): (n: int)
    ensures 1 <= n
    ensures count.None? ==> n == 1
    ensures count.Some? && 1.0 <= count.value ==> -0.5 <= count.value - n as real <= 0.5
    ensures count.Some? && count.value < 1.0 ==> n == 1
  {
    var v := if count.None? || count.value == 0.0 then 1.0 else count.value;
    if RoundHalfEven(v) < 1 then 1 else RoundHalfEven(v)
  }

  /** The offsets, in units, at which a prefixed span starts and ends. */
  function SpanOffsets(d: Directed): (r: (int, int))
    ensures r.0 <= r.1
  {
    var n := WholeCount(d.count);
    match d.direction
    case Past => (-(n - 1), 0)
    case Back => (-n, -1)
    case Forward => (if d.fromNow then 0 else 1, n)
  }

  /** The prefixed spans of `_extended_interval_match`. */
  function DirectedMatch(g: Grammar, text: string, ref: Moment, d: Directed): (r: Reading)
    ensures Ordered(r) && Rendered(g, r) && (r.Done? ==> r.value.Some?)
  {
    var (first, last) := SpanOffsets(d);
    var start :- ExtendedDateAt(ref, first as real, d.unit);
    var end :- ExtendedDateAt(ref, last as real, d.unit);
    ExtendedDateAtMonotone(ref, first as real, last as real, d.unit);
    Done(Some(Resolved(g, text, start, Some(end), Whole(d.unit), Relative)))
  }

  /** "for N units": from the reference's own clock time. */
  function DurationMatch(g: Grammar, text: string, ref: Moment, d: Duration): (r: Reading)
    ensures Ordered(r) && Rendered(g, r)
    ensures r.Done? ==> r.value.Some? && r.value.value.start == Some(ref) && r.value.value.end.Some?
  {
    var n := WholeCount(d.count);
    var end :- ExtendedDateAt(ref, n as real, d.unit);
    ExtendedDateAtAhead(ref, n, d.unit);
    Done(Some(Resolved(g, text, ref, Some(end), Whole(d.unit), Relative)))
  }

  /** `_extended_interval_match`. */
  function ExtendedIntervalMatch(g: Grammar, text: string, ref: Moment): (r: Reading)
    ensures Ordered(r) && Rendered(g, r)
  {
    var c := Collapse(text);
    if g.barePeriod(c) then Done(None)
    else if g.directed(c).Some? then DirectedMatch(g, c, ref, g.directed(c).value)
    else if g.duration(c).Some? then DurationMatch(g, c, ref, g.duration(c).value)
    else Done(None)
  }

  // ---- weeks, months and quarters around a date ----------------------------

  /** The "week/month/quarter of" bounds. */
  function BoundsAround(d: Date, u: Unit): Attempt<Bounds>
    requires u == Week || u == Month || u == Quarter
  {
    if u == Week then
      var monday :- AddDays(d, -Weekday(d));
      WeekFrom(monday)
    else if u == Month then
      MonthFrom(FirstOfMonth(d), 1, Month)
    else
      var start :- AddMonths(FirstOfMonth(d), (d.month - 1) / 3 * 3);
      MonthFrom(start, 3, Quarter)
  }

  /** They are the "this period" bounds around that date, quarter error included. */
  lemma AroundIsThisPeriod(d: Date, u: Unit)
    requires u == Week || u == Month || u == Quarter
    ensures BoundsAround(d, u) == ExtendedPeriodBounds(d, u, 0)
  {
    hide AddDays, AddMonths, MonthFrom, WeekFrom;
    AddNoMonths(FirstOfMonth(d));
    if AddDays(d, -Weekday(d)).Done? {
      AddNoDays(AddDays(d, -Weekday(d)).value);
    }
  }

  function AroundMatch(g: Grammar, text: string, d: Date, u: Unit, basis: Basis): (r: Reading)
    requires u == Week || u == Month || u == Quarter
    ensures Ordered(r) && Rendered(g, r)
    ensures r.Done? && r.value.Some? ==> r.value.value.basis == basis
  {
    var b :- BoundsAround(d, u);
    AroundIsThisPeriod(d, u);
    PeriodOrdered(d, u, 0);
    Done(Some(OnBounds(g, text, b, basis)))
  }

  function WeekFromMatch(g: Grammar, text: string, start: Date): (r: Reading)
    ensures Ordered(r) && Rendered(g, r)
    ensures r.Done? ==> r.value.Some? && r.value.value.start == Some(Midnight(start))
  {
    var b :- WeekFrom(start);
    OrdinalOrder(b.start, b.end);
    Done(Some(OnBounds(g, text, b, Relative)))
  }

  // ---- "until X" -----------------------------------------------------------

  /** `right.event_end or right.event_start`. */
  function LastMoment(m: TemporalMatch): Moment
    requires m.start.Some?
  {
    if m.end.Some? then m.end.value else m.start.value
  }

  function UntilMatch(g: Grammar, text: string, ref: Moment, target: TemporalMatch): (m: Option<TemporalMatch>)
    ensures m.Some? ==> InOrder(m.value) && IsRendered(g, m.value)
    ensures m.Some? ==>
      target.start.Some? && m.value.end == Some(LastMoment(target)) && AtOrBefore(m.value.start.value, ref)
    ensures target.start.Some? && AtOrBefore(ref, LastMoment(target)) ==> m.Some?
    ensures m.Some? && target.precision in {Unknown, Exact, Whole(Second), Whole(Minute), Whole(Hour)} ==>
      m.value.start == Some(ref)
    ensures m.Some? && target.precision in {Whole(Day), Whole(Week), Whole(Month), Whole(Quarter), Whole(Year)} ==>
      m.value.start == Some(Midnight(ref.date))
  {
    if target.start.None? then None
    else
      var start := if IsDateGranularity(target.precision) then Midnight(ref.date) else ref;
      var end := LastMoment(target);
      if AtOrBefore(start, end) then Some(Resolved(g, text, start, Some(end), target.precision, Relative)) else None
  }

  // ---- the remaining patterns ----------------------------------------------

  /** `_part_of_day_time`. */
  function PartHour(p: DayPart): (h: int)
    ensures 0 <= h < 24
  {
    match p
    case Morning => 9
    case Afternoon => 14
    case Evening => 18
    case Night => 21
    case _ => 12
  }

  /** A point on the day: noon, midnight, the hour of a part of the day, or the
      clock time, which alone may be impossible. */
  function TimedDayMatch(g: Grammar, text: string, d: Date, part: DayPart): (m: Option<TemporalMatch>)
    ensures m.Some? ==> InOrder(m.value) && IsRendered(g, m.value)
    ensures m.Some? ==> m.value.start.Some? && m.value.start.value.date == d && m.value.end.None?
    ensures m.None? ==> part.AtClock?
    ensures part.Noon? ==> m.value.start == Some(At(d, 12))
    ensures part.MidnightPart? ==> m.value.start == Some(Midnight(d))
    ensures part.Morning? || part.Afternoon? || part.Evening? || part.Night? ==>
      m.value.start == Some(At(d, PartHour(part)))
  {
    match part
    case Noon => Some(Resolved(g, text, At(d, 12), None, Exact, Relative))
    case MidnightPart => Some(Resolved(g, text, At(d, 0), None, Exact, Relative))
    case AtClock(c) => ExactMatch(g, text, ReadClockOn(c, d), Relative)
    case _ => Some(Resolved(g, text, At(d, PartHour(part)), None, Whole(Day), Relative))
  }

  /** "N units ago", "in N units" and their like; a count of 0 is read as 1. */
  function PointMatch(g: Grammar, text: string, ref: Moment, back: bool, count: Option<real>, u: Unit): (r: Reading)
    ensures Ordered(r) && Rendered(g, r)
    ensures r.Done? ==> r.value.Some? && r.value.value.start.Some? && r.value.value.end.None?
  {
    var n := if count.None? || count.value == 0.0 then 1.0 else count.value;
    var amount := if back then -n else n;
    var target :- if IsShortUnit(u) then ExtendedShift(ref, amount, u) else ExtendedDateAt(ref, amount, u);
    Done(Some(Resolved(g, text, target, None, Whole(u), Relative)))
  }

  /** Where a reading starts, if it gives a match that starts. */
  function StartOf(r: Reading): Attempt<Option<Moment>> {
    var m :- r;
    Done(if m.Some? then m.value.start else None)
  }

  /** "N units ago" has two readings: `_resolve_match`, which endpoints of
      intervals go through first, and the pattern above. They start together, or
      raise together, exactly when N is not 0. */
  lemma AgoReadings(g: Grammar, text: string, ref: Moment, count: nat, u: DateUnit)
    ensures
      var point := PointMatch(g, text, ref, true, Some(count as real), u);
      StartOf(point) == StartOf(BaseMatch(g, text, Ago(count, u), ref.date)) <==> count != 0
  {
    hide AgoDate, ExtendedDateAt, BoundsText;
    var amount := -(if count == 0 then 1.0 else count as real);
    assert amount == (if count == 0 then -1 else -(count as int)) as real;
    AgoPathsAgreeUnlessZero(ref, count, amount, u);
    ExtendedAgo(ref, if count == 0 then 1 else count, amount, u);
  }

  function DateMatch(g: Grammar, text: string, d: Attempt<Date>, u: Unit): (r: Reading)
    ensures Ordered(r) && Rendered(g, r)
  {
    var date :- d;
    Done(Some(OnDate(g, text, date, u, Relative)))
  }

  function PeriodMatch(g: Grammar, text: string, ref: Date, u: Unit, offset: int): (r: Reading)
    requires IsPeriod(u) || u == Quarter
    ensures Ordered(r) && Rendered(g, r)
  {
    var b :- ExtendedPeriodBounds(ref, u, offset);
    PeriodOrdered(ref, u, offset);
    Done(Some(OnBounds(g, text, b, Relative)))
  }

  function WeekendMatch(g: Grammar, text: string, ref: Date, offset: int): (r: Reading)
    ensures Ordered(r) && Rendered(g, r)
  {
    var b :- WeekendBounds(ref, offset);
    OrdinalOrder(b.start, b.end);
    Done(Some(OnBounds(g, text, b, Relative)))
  }

  function QuarterMatch(g: Grammar, text: string, year: int, quarter: int): (r: Reading)
    ensures Ordered(r) && Rendered(g, r)
    ensures r.Done? && r.value.Some? ==> r.value.value.basis == ExplicitDate
  {
    var b :- QuarterBounds(year, quarter);
    MonthEnd(b.start, 3, Quarter);
    EarlierMonth(b.start, b.end);
    Done(Some(OnBounds(g, text, b, ExplicitDate)))
  }

  /** The week before or after a period. A unit that is not in lower case reaches
      `_extended_period_bounds` as it is written, which raises. */
  function WeekBesideMatch(g: Grammar, text: string, ref: Date, before: bool, offset: int, u: Option<LongPeriod>)
      : (r: Reading)
    ensures Ordered(r) && Rendered(g, r)
    ensures u.None? ==> r.Raised?
    ensures r.Done? ==> r.value.Some? && r.value.value.start.Some? && ExtendedPeriodBounds(ref, u.value, offset).Done?
    ensures r.Done? ==>
      var b := ExtendedPeriodBounds(ref, u.value, offset).value;
      var d := r.value.value.start.value.date;
      if before then Ordinal(d) + 7 == Ordinal(b.start) else Ordinal(d) == Ordinal(b.end) + 1
  {
    var period :- if u.None? then Raised else Done(u.value);
    var b :- ExtendedPeriodBounds(ref, period, offset);
    var start :- if before then AddDays(b.start, -7) else AddDays(b.end, 1);
    WeekFromMatch(g, text, start)
  }

  /** The patterns of `_resolve_additional_expression` after its intervals. */
  function AdditionalMatch(g: Grammar, text: string, shape: AdditionalShape, ref: Moment): (r: Reading)
    requires !shape.UnitOf?
    ensures Ordered(r) && Rendered(g, r)
  {
    match shape
    case Now => Done(Some(Resolved(g, text, ref, None, Exact, Relative)))
    case Tonight => Done(Some(Resolved(g, text, At(ref.date, 21), None, Whole(Day), Relative)))
    case NoonOrMidnight(noon) =>
      Done(Some(Resolved(g, text, At(ref.date, if noon then 12 else 0), None, Exact, Relative)))
    case TimedDay(offset, part) =>
      var d :- AddDays(ref.date, offset);
      Done(TimedDayMatch(g, text, d, part))
    case WeekBeside(before, offset, period) => WeekBesideMatch(g, text, ref.date, before, offset, period)
    case PartOfPeriod(offset, part) =>
      var d :- AddDays(ref.date, offset);
      Done(Some(Resolved(g, text, At(d, PartHour(part)), None, Whole(Day), Relative)))
    case DayBeside(ahead) => DateMatch(g, text, AddDays(ref.date, if ahead then 2 else -2), Day)
    case ExtendedPeriod(offset, unit) => PeriodMatch(g, text, ref.date, unit, offset)
    case Weekend(offset) => WeekendMatch(g, text, ref.date, offset)
    case NamedWeekday(direction, weekday) => DateMatch(g, text, DirectedDate(ref.date, direction, weekday), Day)
    case NamedQuarter(year, quarter) => QuarterMatch(g, text, year, quarter)
    case Point(back, count, unit) => PointMatch(g, text, ref, back, count, unit)
  }

  /** The patterns of `_resolve_match` other than "week before". */
  function BaseMatch(g: Grammar, text: string, shape: BaseShape, ref: Date): (r: Reading)
    requires !shape.WeekBefore?
    ensures Ordered(r) && Rendered(g, r)
  {
    match shape
    case DayWord(offset) => DateMatch(g, text, AddDays(ref, offset), Day)
    case Period(offset, unit) =>
      var b :- PeriodBounds(ref, unit, offset);
      ExtendedAgrees(ref, unit, offset);
      PeriodOrdered(ref, unit, offset);
      Done(Some(OnBounds(g, text, b, Relative)))
    case DirectedWeekday(direction, weekday) => DateMatch(g, text, DirectedDate(ref, direction, weekday), Day)
    case Ago(count, unit) => DateMatch(g, text, AgoDate(ref, count, unit), unit)
    case BareWeekday(weekday) => DateMatch(g, text, OnOrAfter(ref, weekday), Day)
    case Explicit(y, m, d) =>
      Done(if IsDate(y, m, d) then Some(OnDate(g, text, CalendarDate(y, m, d), Day, ExplicitDate)) else None)
    case Natural => Done(ExplicitMatch(g, text))
  }
}
