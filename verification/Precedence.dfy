/** Which pattern a text is read by: the order in which `normalize_temporal_expression`
    and the endpoints of intervals try them, and so the dates that a text read by one
    pattern alone names. */
module Precedence {
  import opened Attempts
  import opened Calendar
  import opened Moments
  import opened Text
  import opened Iso
  import opened Grammar
  import opened Branches
  import opened Resolvers
  import opened NamedDates
  import opened NamedTimes

  // ---- texts that the earlier patterns leave alone -------------------------

  /** No pattern of `_resolve_interval` matches. */
  predicate NoInterval(g: Grammar, s: string) {
    var c := Collapse(s);
    && g.shortRange(c).None? && g.weekOf(c).None? && g.monthOf(c).None?
    && Interval(g, c).None? && g.relativeInterval(c).None?
  }

  predicate NoSpan(g: Grammar, s: string) {
    var c := Collapse(s);
    g.barePeriod(c) || (g.directed(c).None? && g.duration(c).None?)
  }

  /** Nothing matches that comes before the patterns after the intervals. */
  predicate NothingEarlier(g: Grammar, c: string) {
    var a := AdditionalText(c);
    && !g.weekBeforeNextMonth(c) && ParseExact(g, c).None?
    && !g.weekBeforeNextMonth(a) && g.until(a).None?
    && NoInterval(g, a) && g.split(a).None? && NoSpan(g, a)
  }

  /** A declined reading is an unresolved match. */
  function Settled(text: string, basis: Basis, r: Reading): Attempt<TemporalMatch> {
    var m :- r;
    Done(if m.Some? then m.value else Unresolved(text, basis))
  }

  lemma NoIntervalDeclines(g: Grammar, s: string, reference: Option<Moment>)
    requires g.Shrinks() && NoInterval(g, s)
    ensures ResolveInterval(g, s, reference) == Done(None)
  {
    hide Collapse, Interval;
  }

  lemma ShapeDecides(g: Grammar, c: string, ref: Moment)
    requires g.Shrinks() && NothingEarlier(g, c)
    ensures ResolveAdditional(g, c, ref, true) == ResolveShape(g, c, AdditionalText(c), ref)
  {
    hide AdditionalText, NoInterval, ParseExact, ResolveInterval, ExtendedEndpoint, ResolveShape, Joined, BoundsText,
         DirectedMatch, DurationMatch, Collapse;
    var a := AdditionalText(c);
    NoIntervalDeclines(g, a, Some(ref));
    assert ResolveExtendedInterval(g, a, ref) == Done(None);
    assert ExtendedIntervalMatch(g, a, ref) == Done(None);
  }

  /** An exact value is a printed date, a moment in the ISO format, or a written date
      with a clock time, in that order, and nothing else. */
  lemma ExactMeans(g: Grammar, text: string)
    ensures
      var c, m := StripLead(Collapse(text), ["on", "at"]), ParseExact(g, text);
      if IsIsoShape(c) && IsoDate(c).Some? then
        m.Some? && IsOneDay(m.value, Day, ExplicitDate) && m.value.start.value.date == IsoDate(c).value
      else if g.isoMoment(c).Some? then
        m.Some? && m.value.start == g.isoMoment(c) && m.value.end.None? && m.value.precision == Exact
      else if g.naturalMoment(c).Some? && ParseAbsolute(g, g.naturalMoment(c).value.0).Some? then
        IsClockPoint(m, ParseAbsolute(g, g.naturalMoment(c).value.0).value.start, g.naturalMoment(c).value.1,
                     ExplicitDate)
      else m.None?
  {
    hide Collapse, StripLead, IsIsoShape, ParseAbsolute, BoundsText, ReadClockOn, IsClockPoint;
    var c := StripLead(Collapse(text), ["on", "at"]);
    if g.naturalMoment(c).Some? && ParseAbsolute(g, g.naturalMoment(c).value.0).Some? {
      var (date, clock) := g.naturalMoment(c).value;
      ClockPointMeans(g, c, clock, ParseAbsolute(g, date).value.start, ExplicitDate);
    }
  }

  // ---- the entry point with a reference ------------------------------------

  /** An exact date or time comes before everything else. */
  lemma ExactWins(g: Grammar, text: string, ref: Moment)
    requires g.Shrinks()
    requires !g.weekBeforeNextMonth(Collapse(text)) && ParseExact(g, Collapse(text)).Some?
    ensures Normalize(g, text, Some(ref)) == Done(ParseExact(g, Collapse(text)).value)
  {
    hide Collapse, ParseExact, ResolveAdditional, ResolveInterval, ExtraMatch, ResolveMatch;
  }

  /** Nothing matches that comes before the intervals. */
  predicate NothingBeforeIntervals(g: Grammar, c: string) {
    && !g.weekBeforeNextMonth(c) && ParseExact(g, c).None?
    && !g.weekBeforeNextMonth(AdditionalText(c)) && g.until(AdditionalText(c)).None?
  }

  /** Then come the intervals, and after them the prefixed spans and durations. */
  lemma IntervalsWin(g: Grammar, text: string, ref: Moment)
    requires g.Shrinks() && NothingBeforeIntervals(g, Collapse(text))
    ensures
      var a := AdditionalText(Collapse(text));
      var interval, span := ResolveExtendedInterval(g, a, ref), ExtendedIntervalMatch(g, a, ref);
      && (interval != Done(None) ==> Normalize(g, text, Some(ref)) == Settled(text, UnknownExpression, interval))
      && (interval == Done(None) && span != Done(None) ==>
            Normalize(g, text, Some(ref)) == Settled(text, UnknownExpression, span))
  {
    hide Collapse, AdditionalText, ParseExact, ResolveExtendedInterval, ExtendedIntervalMatch, ResolveShape,
         ResolveInterval, ExtraMatch, ResolveMatch, ExtendedEndpoint, UntilMatch;
    var c, a := Collapse(text), AdditionalText(Collapse(text));
    var first := if ResolveExtendedInterval(g, a, ref) != Done(None) then ResolveExtendedInterval(g, a, ref)
                 else ExtendedIntervalMatch(g, a, ref);
    assert ResolveUntil(g, c, a, ref) == Done(None);
    assert first != Done(None) ==> ResolveAdditional(g, c, ref, true) == first;
    assert first != Done(None) ==> ResolveExtra(g, text, Some(ref)) == first;
  }

  /** A text that the patterns after the intervals are the first to match is read by
      them, unless its clock time is impossible. */
  lemma AdditionalWins(g: Grammar, text: string, ref: Moment)
    requires g.Shrinks() && NothingEarlier(g, Collapse(text))
    requires g.additional(AdditionalText(Collapse(text))).Some?
    requires !g.additional(AdditionalText(Collapse(text))).value.UnitOf?
    ensures
      var r := AdditionalMatch(g, Collapse(text), g.additional(AdditionalText(Collapse(text))).value, ref);
      r != Done(None) ==> Normalize(g, text, Some(ref)) == Settled(text, UnknownExpression, r)
  {
    hide Collapse, ParseExact, ResolveAdditional, ResolveInterval, ExtraMatch, ResolveMatch, AdditionalText,
         AdditionalMatch, ExtendedEndpoint, AroundMatch;
    ShapeDecides(g, Collapse(text), ref);
  }

  /** So "tonight", "tomorrow at noon" and "Friday" are normalised to the moment or the
      day they name. */
  lemma MomentNormalised(g: Grammar, text: string, ref: Moment)
    requires g.Shrinks() && NothingEarlier(g, Collapse(text))
    requires g.additional(AdditionalText(Collapse(text))).Some?
    requires NamesMoment(g.additional(AdditionalText(Collapse(text))).value)
    ensures
      var shape := g.additional(AdditionalText(Collapse(text))).value;
      exists r: Reading ::
        && ReadsMoment(shape, ref, r)
        && (r != Done(None) ==> Normalize(g, text, Some(ref)) == Settled(text, UnknownExpression, r))
  {
    hide Collapse, AdditionalText, AdditionalMatch, ReadsMoment, Normalize, NothingEarlier;
    var shape := g.additional(AdditionalText(Collapse(text))).value;
    AdditionalWins(g, text, ref);
    AdditionalNamesMoment(g, Collapse(text), shape, ref);
  }

  /** And "last week", "this quarter" and "next year" to the period they name. */
  lemma PeriodNormalised(g: Grammar, text: string, offset: int, u: LongPeriod, ref: Moment)
    requires g.Shrinks() && NothingEarlier(g, Collapse(text))
    requires g.additional(AdditionalText(Collapse(text))) == Some(ExtendedPeriod(offset, u))
    ensures
      exists r: Reading ::
        && ReadsPeriod(r, ref.date, offset, u, Relative)
        && Normalize(g, text, Some(ref)) == Settled(text, UnknownExpression, r)
  {
    hide Collapse, AdditionalText, AdditionalMatch, Normalize, NothingEarlier;
    AdditionalWins(g, text, ref);
    AdditionalNamesPeriod(g, Collapse(text), offset, u, ref);
  }

  /** And "the week of X" to the period around the start of X. */
  lemma AroundNormalised(g: Grammar, text: string, u: AroundUnit, target: string, m: TemporalMatch, ref: Moment)
    requires g.Shrinks() && NothingEarlier(g, Collapse(text))
    requires g.additional(AdditionalText(Collapse(text))) == Some(UnitOf(u, target))
    requires ExtendedEndpoint(g, target, ref) == Done(Some(m)) && m.start.Some?
    ensures
      exists r: Reading ::
        && ReadsPeriod(r, m.start.value.date, 0, u, m.basis)
        && Normalize(g, text, Some(ref)) == Settled(text, UnknownExpression, r)
  {
    hide Collapse, AdditionalText, ResolveAdditional, AroundMatch, ExtendedEndpoint, ParseExact, LongInCalendar,
         ResolveInterval, ExtraMatch, ResolveMatch;
    var c := Collapse(text);
    ShapeDecides(g, c, ref);
    AroundNamesPeriod(g, c, m.start.value.date, u, m.basis);
    var r := AroundMatch(g, c, m.start.value.date, u, m.basis);
    assert ResolveShape(g, c, AdditionalText(c), ref) == r;
    assert ResolveExtra(g, text, Some(ref)) == r;
  }

  /** A text that no other pattern matches is read by `_resolve_match`: "today",
      "yesterday" and "tomorrow", or a written date, are normalised to the dates they
      name. */
  lemma BaseNormalised(g: Grammar, text: string, ref: Moment)
    requires g.Shrinks()
    requires NothingEarlier(g, Collapse(text)) && g.additional(AdditionalText(Collapse(text))).None?
    requires NoInterval(g, Collapse(text)) && g.extra(Collapse(text)).None?
    requires g.base(Strip(text)).Some? && !g.base(Strip(text)).value.WeekBefore?
    ensures
      var shape := g.base(Strip(text)).value;
      exists r: Reading ::
        && ReadsBase(g, Strip(text), shape, ref.date, r)
        && Normalize(g, text, Some(ref)) == Settled(text, UnknownExpression, r)
  {
    hide Collapse, Strip, ParseExact, ResolveAdditional, ResolveInterval, ExtraMatch, AdditionalText, BaseMatch,
         NoInterval, ReadsBase;
    var shape := g.base(Strip(text)).value;
    ShapeDecides(g, Collapse(text), ref);
    NoIntervalDeclines(g, Collapse(text), Some(ref));
    BaseMeans(g, Strip(text), shape, ref.date);
    assert ResolveExtra(g, text, Some(ref)) == Done(None);
    assert ResolveMatch(g, text, ref) == BaseMatch(g, Strip(text), shape, ref.date);
  }

  // ---- the entry point without one -----------------------------------------

  lemma NothingWithoutReference(g: Grammar, text: string)
    requires g.Shrinks() && NoInterval(g, Collapse(text)) && ParseExact(g, Collapse(text)).None?
    ensures ResolveExtra(g, text, None).Done?
    ensures ResolveExtra(g, text, None).value.Some? ==> ResolveExtra(g, text, None).value.value.start.None?
  {
    hide Collapse, ParseExact, ResolveInterval, NoInterval;
    NoIntervalDeclines(g, Collapse(text), None);
  }

  /** Without a reference a text that only `_resolve_match` reads is normalised to the
      written date, and left as it is when it is relative. */
  lemma BaseWithoutReference(g: Grammar, text: string)
    requires g.Shrinks() && NoInterval(g, Collapse(text)) && ParseExact(g, Collapse(text)).None?
    requires g.quarter(Strip(text)).None?
    requires g.base(Strip(text)).Some? && !g.base(Strip(text)).value.WeekBefore?
    ensures
      var shape := g.base(Strip(text)).value;
      if shape.Explicit? || shape.Natural? then
        exists m: Option<TemporalMatch> ::
          && ReadsWritten(m, Written(g, Strip(text)))
          && Normalize(g, text, None) == Settled(text, NoReference, Done(m))
      else Normalize(g, text, None) == Done(Unresolved(text, NoReference))
  {
    hide Collapse, Strip, ParseExact, ResolveExtra, NoInterval, ExplicitMatch, ReadsWritten, Written;
    NothingWithoutReference(g, text);
    ExplicitMeans(g, Strip(text));
  }

  /** A named quarter is normalised without a reference too. */
  lemma QuarterWithoutReference(g: Grammar, text: string, year: int, quarter: int)
    requires g.Shrinks() && NoInterval(g, Collapse(text)) && ParseExact(g, Collapse(text)).None?
    requires g.quarter(Strip(text)) == Some((year, quarter)) && 1 <= quarter <= 4
    ensures
      exists r: Reading ::
        ReadsQuarter(r, year, quarter) && Normalize(g, text, None) == Settled(text, NoReference, r)
  {
    hide Collapse, Strip, ParseExact, ResolveExtra, NoInterval, QuarterMatch, ReadsQuarter;
    NothingWithoutReference(g, text);
    NamedQuarterMeans(g, text, year, quarter);
    QuarterYears(g, text, year, quarter);
  }

  lemma QuarterYears(g: Grammar, text: string, year: int, quarter: int)
    ensures MakeDate(year, 1, 1).Raised? ==> QuarterMatch(g, text, year, quarter).Raised?
    ensures MakeDate(year, 1, 1).Done? ==> MakeDate(year, 1, 1).value.year == year
  {
  }

  // ---- the sides of intervals ----------------------------------------------

  /** An endpoint that is not an exact value is read by `_resolve_match` before
      anything else. */
  lemma EndpointReadsBase(g: Grammar, text: string, ref: Moment)
    requires g.Shrinks()
    requires
      var c := StripLead(Collapse(text), ["on", "the"]);
      ParseExact(g, c).None? && g.base(Strip(c)).Some? && !g.base(Strip(c)).value.WeekBefore?
    ensures
      var c := StripLead(Collapse(text), ["on", "the"]);
      exists r: Reading ::
        && ReadsBase(g, Strip(c), g.base(Strip(c)).value, ref.date, r)
        && (r != Done(None) ==> ParseEndpoint(g, text, Some(ref)) == r)
  {
    hide Collapse, Strip, StripLead, ParseExact, ResolveAdditional, ResolveExtra, BaseMatch, Interval, ReadsBase;
    var c := StripLead(Collapse(text), ["on", "the"]);
    var shape := g.base(Strip(c)).value;
    BaseMeans(g, Strip(c), shape, ref.date);
    assert ResolveMatch(g, c, ref) == BaseMatch(g, Strip(c), shape, ref.date);
  }

  /** Two endpoints that start join to the interval from the start of the left to the
      end of the right, or to its start when it has no end; declined exactly when that
      is before the start. */
  lemma SidesJoin(g: Grammar, c: string, startText: string, endText: string, reference: Option<Moment>,
                  left: TemporalMatch, right: TemporalMatch)
    requires g.Shrinks() && |startText| < |c| && |endText| < |c|
    requires ParseEndpoint(g, startText, reference) == Done(Some(left)) && left.start.Some?
    requires ParseEndpoint(g, endText, reference) == Done(Some(right)) && right.start.Some?
    ensures
      var r := ResolveSides(g, c, startText, endText, reference);
      var end := if right.end.Some? then right.end else right.start;
      && r.Done? && (r.value.Some? <==> AtOrBefore(left.start.value, end.value))
      && (r.value.Some? ==> r.value.value.start == left.start && r.value.value.end == end)
  {
    hide ParseEndpoint, BoundsText, AtOrBefore;
  }

  /** A range of days of one month is read as those days, and declined exactly when it
      is inverted or one of the two does not exist. */
  lemma ShortRangeMeans(g: Grammar, c: string, range: ShortRange)
    ensures
      var r := ShortRangeMatch(g, c, range);
      && r.Done?
      && (r.value.Some? <==> IsDate(range.year, range.month, range.first)
                             && IsDate(range.year, range.month, range.last) && range.first <= range.last)
      && (r.value.Some? ==>
            && IsDayRange(r.value.value, Day, ExplicitDate)
            && forall d: Date :: Covers(r.value.value, d) <==>
                 d.year == range.year && d.month == range.month && range.first <= d.day <= range.last)
  {
    hide BoundsText;
  }

  /** A year alone is read as its dates. */
  lemma YearMeans(g: Grammar, c: string, year: int)
    ensures
      var r := YearMatch(g, c, year);
      && (r.Done? <==> MIN_YEAR <= year <= MAX_YEAR)
      && (r.Done? ==> r.value.Some? && IsDayRange(r.value.value, Year, ExplicitDate)
                      && forall d: Date :: Covers(r.value.value, d) <==> d.year == year)
  {
    hide BoundsText;
  }

  /** A clock word alone is read as that time of the reference's day. */
  lemma ClockWordMeans(g: Grammar, c: string, d: Date)
    requires g.clockWord(c).Some?
    ensures
      var m := ClockWordMatch(g, c, d);
      match g.clockWord(c).value
      case NoonWord => m.Some? && IsPoint(m.value, d, 12 * HOUR, Exact)
      case MidnightWord => m.Some? && IsPoint(m.value, d, 0, Exact)
      case ClockWord(clock) => IsClockPoint(m, d, clock, Relative)
  {
    hide BoundsText, ReadClockOn, ExactMatch, IsClockPoint;
    if g.clockWord(c).value.ClockWord? {
      ClockPointMeans(g, c, g.clockWord(c).value.clock, d, Relative);
    }
  }

  /** The text of an extended endpoint without its lead word and final punctuation. */
  function EndpointText(text: string): string {
    StripLead(TrimEnd(Strip(text)), ["on", "at"])
  }

  /** An extended endpoint that is not an exact value is a year alone, or else what
      `_resolve_match` reads, or, when the later patterns decline it too, a clock
      word. */
  lemma ExtendedEndpointReads(g: Grammar, text: string, ref: Moment)
    requires g.Shrinks() && ParseExact(g, EndpointText(text)).None?
    ensures
      var c, r := EndpointText(text), ExtendedEndpoint(g, text, ref);
      if g.yearOnly(c).Some? then r == YearMatch(g, c, g.yearOnly(c).value)
      else if ResolveMatch(g, c, ref) != Done(None) then r == ResolveMatch(g, c, ref)
      else if ResolveAdditional(g, c, ref, false) == Done(None) then r == Done(ClockWordMatch(g, c, ref.date))
      else true
  {
    hide StripLead, TrimEnd, Strip, ParseExact, YearMatch, ResolveMatch, ResolveAdditional, ClockWordMatch;
  }

  /** Two extended endpoints join likewise, except that a bare weekday that would end
      the interval before its start is taken from the start on. */
  lemma ExtendedSidesJoin(g: Grammar, text: string, ref: Moment, left: TemporalMatch, right: TemporalMatch)
    requires g.Shrinks() && NoInterval(g, text) && g.split(text).Some?
    requires ExtendedEndpoint(g, g.split(text).value.0, ref) == Done(Some(left)) && left.start.Some?
    requires ExtendedEndpoint(g, g.split(text).value.1, ref) == Done(Some(right)) && right.start.Some?
    ensures
      var r := ResolveExtendedInterval(g, text, ref);
      var end := if right.end.Some? then right.end else right.start;
      var weekday := g.bareWeekday(Strip(g.split(text).value.1));
      if AtOrBefore(left.start.value, end.value) then
        r.Done? && r.value.Some? && r.value.value.start == left.start && r.value.value.end == end
      else if weekday.None? then r == Done(None)
      else
        var later := WeekdayAfter(left.start.value, left.precision, weekday.value);
        if later.Raised? then r.Raised?
        else r.Done? && (r.value.Some? ==> r.value.value.start == left.start && r.value.value.end == Some(later.value))
  {
    hide ExtendedEndpoint, BoundsText, AtOrBefore, NoInterval, ResolveInterval, WeekdayAfter, Strip;
    NoIntervalDeclines(g, text, Some(ref));
  }

  /** A bare weekday that would end an interval before its start is taken from the
      start: that many days on from a start that is a week, and otherwise the earliest
      such day from the start on. */
  lemma WeekdayAfterMeans(start: Moment, precision: Precision, weekday: WeekdayNumber, d: Date)
    ensures
      WeekdayAfter(start, precision, weekday) == Done(Midnight(d))
      <==> if precision == Whole(Week) then IsBeside(d, start.date, weekday) else IsNextOn(d, start.date, weekday)
  {
    hide AddDays, Ordinal;
    if precision == Whole(Week) {
      BesideIs(start.date, weekday, d);
    } else {
      NextOnIs(start.date, weekday, d);
    }
  }

  lemma WeekdayOn(n: int, weekday: int)
    requires 0 <= weekday < 7
    ensures (n + weekday + 6) % 7 == weekday <==> (n + 6) % 7 == 0
  {
  }

  /** So the interval ends on the weekday named exactly when its start is not a week,
      or is one that starts on a Monday: the days of a weekend count as a week, and
      start on a Saturday. */
  lemma WeekdayAfterIsThatDay(start: Moment, precision: Precision, weekday: WeekdayNumber)
    requires WeekdayAfter(start, precision, weekday).Done?
    ensures
      Weekday(WeekdayAfter(start, precision, weekday).value.date) == weekday
      <==> precision != Whole(Week) || Weekday(start.date) == 0
  {
    hide Ordinal, FromOrdinal;
    var d := WeekdayAfter(start, precision, weekday).value.date;
    WeekdayAfterMeans(start, precision, weekday, d);
    WeekdayOn(Ordinal(start.date), weekday);
  }

  lemma FridayOnFromSaturday(n: int)
    requires (n + 6) % 7 == 5
    ensures (n + 4 + 6) % 7 == 2
  {
  }

  /** From a weekend that starts on a Saturday, "to Friday" ends on the Wednesday after. */
  lemma WeekendToFriday(start: Moment)
    requires Weekday(start.date) == 5 && WeekdayAfter(start, Whole(Week), 4).Done?
    ensures Weekday(WeekdayAfter(start, Whole(Week), 4).value.date) == 2
  {
    hide Ordinal, FromOrdinal;
    FridayOnFromSaturday(Ordinal(start.date));
  }

  // ---- the final patterns --------------------------------------------------

  /** What a reading by the final patterns means, those that read a text again left
      aside. */
  ghost predicate ReadsExtra(shape: ExtraShape, ref: Moment, r: Reading) {
    match shape
    case ExtraNow => r.Done? && r.value.Some? && IsPoint(r.value.value, ref.date, ref.micros, Exact)
    case ExtraPoint(count, unit) => ReadsDay(r, unit, (d: Date) => IsShifted(d, ref.date, count, unit))
    case ExtraDay(ahead) => ReadsDay(r, Day, (d: Date) => IsBeside(d, ref.date, if ahead then 2 else -2))
    case ExtraSpan(direction, over, count, unit) =>
      r.Done? ==> r.value.Some? && IsDayRange(r.value.value, unit, Relative)
                  && SpansUnits(r.value.value.start.value.date, r.value.value.end.value.date, ref.date, direction, over,
                                count, unit)
    case _ => true
  }

  lemma ExtraMeans(g: Grammar, c: string, shape: ExtraShape, ref: Moment)
    requires g.Shrinks() && g.extra(c) == Some(shape)
    ensures ReadsExtra(shape, ref, ExtraMatch(g, c, shape, ref))
  {
    hide BoundsText, DateMatch, AddDays, ShiftDate, ReadsDay, IsShifted, ExtraSpanBounds, SpansUnits, ResolveMatch;
    match shape
    case ExtraNow =>
    case ExtraPoint(count, unit) => ExtraNamesDay(g, c, ref.date, count, unit);
    case ExtraDay(ahead) => DayBesideReads(g, c, ref.date, ahead);
    case ExtraSpan(direction, over, count, unit) =>
      if ExtraSpanBounds(ref.date, direction, over, count, unit).Done? {
        ExtraSpanMeans(ref.date, direction, over, count, unit);
      }
    case _ =>
  }

  /** "today at 5 pm" is that time of the day the word names. */
  lemma ExtraTimedMeans(g: Grammar, c: string, word: string, clock: Option<Clock>, ref: Moment, day: TemporalMatch)
    requires g.Shrinks() && g.extra(c) == Some(ExtraTimed(word, clock))
    requires ResolveMatch(g, word, ref) == Done(Some(day)) && day.start.Some?
    ensures
      var r := ExtraMatch(g, c, ExtraTimed(word, clock), ref);
      r.Done? && IsClockPoint(r.value, day.start.value.date, clock, Relative)
  {
    hide BoundsText, ReadClockOn, ExactMatch, IsClockPoint, ResolveMatch;
    ClockPointMeans(g, c, clock, day.start.value.date, Relative);
  }

  /** "the week before/after last month" has seven days, and starts seven days before
      the period does or the day after it ends. */
  lemma ExtraWeekMeans(g: Grammar, c: string, before: bool, period: string, ref: Moment, target: TemporalMatch)
    requires g.Shrinks() && g.extra(c) == Some(ExtraWeek(before, period))
    requires ResolveMatch(g, period, ref) == Done(Some(target)) && target.start.Some?
    requires ExtraMatch(g, c, ExtraWeek(before, period), ref).Done?
    ensures
      var r := ExtraMatch(g, c, ExtraWeek(before, period), ref).value;
      var end := if target.end.Some? then target.end.value else target.start.value;
      && r.Some? && IsDayRange(r.value, Week, Relative)
      && IsBeside(r.value.end.value.date, r.value.start.value.date, 6)
      && if before then IsBeside(r.value.start.value.date, target.start.value.date, -7)
         else IsBeside(r.value.start.value.date, end.date, 1)
  {
    hide BoundsText, ResolveMatch, Ordinal, FromOrdinal;
  }
}
