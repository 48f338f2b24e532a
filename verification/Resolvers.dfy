/** The mutually recursive resolvers of temporal expressions.

    Each takes a text, looks at it through the grammar, and may hand a captured
    sub-expression to another resolver. They terminate on every text: a call
    goes to a strictly shorter text, or to a resolver of lower rank on a text
    that is no longer. */
module Resolvers {
  import opened Attempts
  import opened Calendar
  import opened Moments
  import opened Text
  import opened Iso
  import opened Grammar
  import opened Branches

  /** Without a reference nothing relative is resolved. */
  predicate Unassumed(reference: Option<Moment>, r: Reading) {
    reference.None? && r.Done? && r.value.Some? && r.value.value.start.Some? ==> r.value.value.basis == ExplicitDate
  }

  /** An interval never runs backwards. */
  ghost predicate Forwards(g: Grammar, r: Reading) {
    g.Subsumes() ==> Ordered(r)
  }

  /** `_INTERVAL_RE`, with the printed form of an interval of days read concretely. */
  function Interval(g: Grammar, c: string): (r: Option<(string, string)>)
    ensures g.Shrinks() && r.Some? ==> |r.value.0| < |c| && |r.value.1| < |c|
  {
    if IsIsoInterval(c) then Some((c[..10], c[19..])) else g.interval(c)
  }

  function IntervalBasis(left: TemporalMatch, right: TemporalMatch): Basis {
    if left.basis == Relative || right.basis == Relative then Relative else ExplicitDate
  }

  /** The common end of both interval resolvers: declines an inverted interval. */
  function Joined(g: Grammar, text: string, left: TemporalMatch, right: TemporalMatch, start: Moment, end: Moment)
      : (r: Reading)
    ensures Ordered(r) && Rendered(g, r)
    ensures r.Done? && r.value.Some? ==> r.value.value.basis == IntervalBasis(left, right)
    ensures AtOrBefore(start, end) ==>
      r == Done(Some(Resolved(g, text, start, Some(end), Coarser(left.precision, right.precision),
                              IntervalBasis(left, right))))
  {
    if !AtOrBefore(start, end) then Done(None)
    else
      Done(Some(Resolved(g, text, start, Some(end), Coarser(left.precision, right.precision),
                         IntervalBasis(left, right))))
  }

  function ShortRangeMatch(g: Grammar, text: string, range: ShortRange): (r: Reading)
    ensures Ordered(r) && Rendered(g, r)
    ensures r.Done? && r.value.Some? ==> r.value.value.basis == ExplicitDate
  {
    if !IsDate(range.year, range.month, range.first) || !IsDate(range.year, range.month, range.last) then Done(None)
    else if range.last < range.first then Done(None)
    else Done(Some(OnDates(g, text, CalendarDate(range.year, range.month, range.first),
                           CalendarDate(range.year, range.month, range.last), Day, ExplicitDate)))
  }

  /** The end of an interval whose right side is a bare weekday before its start. */
  function WeekdayAfter(start: Moment, precision: Precision, weekday: WeekdayNumber): Attempt<Moment> {
    var d :- AddDays(start.date, if precision == Whole(Week) then weekday else (weekday - Weekday(start.date)) % 7);
    Done(Midnight(d))
  }

  /** `_parse_endpoint`. */
  function ParseEndpoint(g: Grammar, text: string, reference: Option<Moment>): (r: Reading)
    requires g.Shrinks()
    ensures Bounded(g, r) && Forwards(g, r) && Unassumed(reference, r)
    decreases |text|, 6
  {
    var c := StripLead(Collapse(text), ["on", "the"]);
    var exact := ParseExact(g, c);
    if exact.Some? || reference.None? then Done(exact)
    else
      var base :- ResolveMatch(g, c, reference.value);
      if base.Some? then Done(base)
      else if Interval(g, c).Some? || g.relativeInterval(c).Some? then Done(None)
      else
        var extended :- ResolveAdditional(g, c, reference.value, false);
        if extended.Some? then Done(extended)
        else ResolveExtra(g, c, reference)
  }

  /** `_resolve_interval`. */
  function ResolveInterval(g: Grammar, text: string, reference: Option<Moment>): (r: Reading)
    requires g.Shrinks()
    ensures Rendered(g, r) && Forwards(g, r) && Unassumed(reference, r)
    decreases |text|, 1
  {
    var c := Collapse(text);
    if g.shortRange(c).Some? then ShortRangeMatch(g, c, g.shortRange(c).value)
    else if g.weekOf(c).Some? then
      var target :- ParseEndpoint(g, g.weekOf(c).value, reference);
      if target.None? || target.value.start.None? then Done(None)
      else AroundMatch(g, c, target.value.start.value.date, Week, target.value.basis)
    else if g.monthOf(c).Some? then
      var target :- ParseEndpoint(g, g.monthOf(c).value, reference);
      if target.None? || target.value.start.None? then Done(None)
      else AroundMatch(g, c, target.value.start.value.date, Month, target.value.basis)
    else
      var sides := if Interval(g, c).Some? then Interval(g, c) else g.relativeInterval(c);
      if sides.None? then Done(None)
      else ResolveSides(g, c, sides.value.0, sides.value.1, reference)
  }

  /** Its last step: both sides of an interval, and their common end. */
  function ResolveSides(g: Grammar, c: string, startText: string, endText: string, reference: Option<Moment>)
      : (r: Reading)
    requires g.Shrinks() && |startText| < |c| && |endText| < |c|
    ensures Rendered(g, r) && Forwards(g, r) && Unassumed(reference, r)
    decreases |c|, 0
  {
    var left :- ParseEndpoint(g, startText, reference);
    var right :- ParseEndpoint(g, endText, reference);
    if left.None? || right.None? || left.value.start.None? || right.value.start.None? then Done(None)
    else Joined(g, c, left.value, right.value, left.value.start.value, LastMoment(right.value))
  }

  /** `_resolve_extra_expression`. */
  function ResolveExtra(g: Grammar, text: string, reference: Option<Moment>): (r: Reading)
    requires g.Shrinks()
    ensures Faithful(g, text, r) && Forwards(g, r) && Unassumed(reference, r)
    decreases |text|, 4
  {
    var c := Collapse(text);
    WordsOfCollapse(text);
    if g.weekBeforeNextMonth(c) then Done(Some(Unresolved(c, UnknownExpression)))
    else if reference.None? then
      var interval :- ResolveInterval(g, c, None);
      if interval.Some? then Done(interval)
      else
        var exact := ParseExact(g, c);
        Done(if exact.Some? then exact else Some(Unresolved(c, NoReference)))
    else
      var exact := ParseExact(g, c);
      if exact.Some? then Done(exact)
      else
        var extended :- ResolveAdditional(g, c, reference.value, true);
        if extended.Some? then Done(extended)
        else
          var interval :- ResolveInterval(g, c, reference);
          if interval.Some? then Done(interval)
          else if g.extra(c).None? then Done(None)
          else ExtraMatch(g, c, g.extra(c).value, reference.value)
  }

  /** The final patterns of `_resolve_extra_expression`. */
  function ExtraMatch(g: Grammar, c: string, shape: ExtraShape, ref: Moment): (r: Reading)
    requires g.Shrinks()
    requires g.extra(c) == Some(shape)
    ensures Rendered(g, r)
    ensures g.Subsumes() && !shape.ExtraSpan? ==> Ordered(r)
    decreases |c|, 3
  {
    match shape
    case ExtraNow => Done(Some(Resolved(g, c, ref, None, Exact, Relative)))
    case ExtraPoint(count, unit) => DateMatch(g, c, ShiftDate(ref.date, count, unit), unit)
    case ExtraSpan(direction, over, count, unit) =>
      var b :- ExtraSpanBounds(ref.date, direction, over, count, unit);
      Done(Some(OnBounds(g, c, b, Relative)))
    case ExtraDay(ahead) => DateMatch(g, c, AddDays(ref.date, if ahead then 2 else -2), Day)
    case ExtraWeek(before, period) =>
      var target :- ResolveMatch(g, period, ref);
      if target.None? || target.value.start.None? then Done(None)
      else
        var m := target.value;
        var start :- if before then AddDays(m.start.value.date, -7) else AddDays(LastMoment(m).date, 1);
        WeekFromMatch(g, c, start)
    case ExtraTimed(dayWord, clock) =>
      var day :- ResolveMatch(g, dayWord, ref);
      if day.None? || day.value.start.None? then Done(None)
      else Done(ExactMatch(g, c, ReadClockOn(clock, day.value.start.value.date), Relative))
  }

  function YearMatch(g: Grammar, c: string, year: int): (r: Reading)
    ensures Ordered(r) && Rendered(g, r)
  {
    var first :- MakeDate(year, 1, 1);
    Done(Some(OnDates(g, c, first, CalendarDate(first.year, 12, 31), Year, ExplicitDate)))
  }

  /** `_extended_endpoint`. */
  function ExtendedEndpoint(g: Grammar, text: string, ref: Moment): (r: Reading)
    requires g.Shrinks()
    ensures Bounded(g, r) && Forwards(g, r)
    decreases |text|, 6
  {
    hide BoundsText, ParseExact, StripLead, TrimEnd, Strip, YearMatch, ClockWordMatch;
    var c := StripLead(TrimEnd(Strip(text)), ["on", "at"]);
    var exact := ParseExact(g, c);
    if exact.Some? then Done(exact)
    else if g.yearOnly(c).Some? then
      YearMatch(g, c, g.yearOnly(c).value)
    else
      var current :- ResolveMatch(g, c, ref);
      if current.Some? then Done(current)
      else
        var resolved :- ResolveAdditional(g, c, ref, false);
        if resolved.Some? && resolved.value.start.Some? then Done(resolved)
        else Done(ClockWordMatch(g, c, ref.date))
  }

  /** A clock word alone is a point on the reference's day. */
  function ClockWordMatch(g: Grammar, c: string, d: Date): (m: Option<TemporalMatch>)
    ensures m.Some? ==> InOrder(m.value) && IsRendered(g, m.value)
    ensures m.Some? ==> m.value.start.Some? && m.value.start.value.date == d && m.value.end.None?
    ensures g.clockWord(c) == Some(NoonWord) ==> m.Some? && m.value.start == Some(At(d, 12))
    ensures g.clockWord(c) == Some(MidnightWord) ==> m.Some? && m.value.start == Some(Midnight(d))
  {
    match g.clockWord(c)
    case None => None
    case Some(NoonWord) => Some(Resolved(g, c, At(d, 12), None, Exact, Relative))
    case Some(MidnightWord) => Some(Resolved(g, c, At(d, 0), None, Exact, Relative))
    case Some(ClockWord(clock)) => ExactMatch(g, c, ReadClockOn(clock, d), Relative)
  }

  /** `_resolve_extended_interval`. */
  function ResolveExtendedInterval(g: Grammar, text: string, ref: Moment): (r: Reading)
    requires g.Shrinks()
    ensures Rendered(g, r) && Forwards(g, r)
    decreases |text|, 2
  {
    var existing :- ResolveInterval(g, text, Some(ref));
    if existing.Some? then Done(existing)
    else if g.split(text).None? then Done(None)
    else
      var (startText, endText) := g.split(text).value;
      var left :- ExtendedEndpoint(g, startText, ref);
      var right :- ExtendedEndpoint(g, endText, ref);
      if left.None? || right.None? || left.value.start.None? || right.value.start.None? then Done(None)
      else
        var start, end := left.value.start.value, LastMoment(right.value);
        var weekday := g.bareWeekday(Strip(endText));
        var adjusted :- if weekday.Some? && !AtOrBefore(start, end)
                        then WeekdayAfter(start, left.value.precision, weekday.value)
                        else Done(end);
        Joined(g, text, left.value, right.value, start, adjusted)
  }

  /** `_resolve_additional_expression`. */
  function ResolveAdditional(g: Grammar, text: string, ref: Moment, allowInterval: bool): (r: Reading)
    requires g.Shrinks()
    ensures Rendered(g, r) && Forwards(g, r)
    ensures allowInterval && g.ReadsDirected(AdditionalText(text)) ==> r.Raised? || r.value.Some?
    decreases |text|, 3
  {
    var c := AdditionalText(text);
    if g.weekBeforeNextMonth(c) then Done(None)
    else
      var until :- ResolveUntil(g, text, c, ref);
      if until.Some? then Done(until)
      else
        var interval :- if allowInterval then ResolveExtendedInterval(g, c, ref) else Done(None);
        if interval.Some? then Done(interval)
        else
          var span :- if allowInterval then ExtendedIntervalMatch(g, c, ref) else Done(None);
          if span.Some? then Done(span)
          else ResolveShape(g, text, c, ref)
  }

  /** Its "until X" branch. */
  function ResolveUntil(g: Grammar, text: string, c: string, ref: Moment): (r: Reading)
    requires g.Shrinks() && |c| <= |text|
    ensures Rendered(g, r) && Forwards(g, r)
    decreases |c|, 2
  {
    if g.until(c).None? then Done(None)
    else
      var target :- ExtendedEndpoint(g, g.until(c).value, ref);
      Done(if target.None? then None else UntilMatch(g, text, ref, target.value))
  }

  /** Its patterns after the intervals. */
  function ResolveShape(g: Grammar, text: string, c: string, ref: Moment): (r: Reading)
    requires g.Shrinks()
    ensures Rendered(g, r) && Forwards(g, r)
    decreases |c|, 2
  {
    if g.additional(c).None? then Done(None)
    else if g.additional(c).value.UnitOf? then
      var shape := g.additional(c).value;
      var target :- ExtendedEndpoint(g, shape.target, ref);
      if target.None? || target.value.start.None? then Done(None)
      else AroundMatch(g, text, target.value.start.value.date, shape.whole, target.value.basis)
    else AdditionalMatch(g, text, g.additional(c).value, ref)
  }

  /** `_resolve_match`. */
  function ResolveMatch(g: Grammar, text: string, ref: Moment): (r: Reading)
    requires g.Shrinks()
    ensures Faithful(g, text, r) && Forwards(g, r)
    decreases |text|, 5
  {
    hide BaseMatch, WeekBeforeMatch, BoundsText;
    var original := Strip(text);
    WordsOfStrip(text);
    if g.base(original).None? then Done(None)
    else if g.base(original).value.WeekBefore? then
      var explicit := WeekBeforeMatch(g, original, g.base(original).value.target);
      if explicit.Some? then Done(explicit)
      else
        var other :- ResolveExtra(g, original, Some(ref));
        Done(if other.Some? then other else Some(Unresolved(original, UnknownExpression)))
    else BaseMatch(g, original, g.base(original).value, ref.date)
  }

  // ---- the entry point -----------------------------------------------------

  /** `_resolve_explicit_without_reference`. */
  function ResolveWithoutReference(g: Grammar, text: string): (r: Reading)
    requires g.Shrinks()
    ensures Rendered(g, r) && Forwards(g, r)
  {
    var extra :- ResolveExtra(g, text, None);
    if extra.Some? && extra.value.start.Some? then Done(extra)
    else
      var s := Strip(text);
      if g.quarter(s).Some? then
        // `date(year, 1, 1)` is built first and raises for year 0
        var first :- MakeDate(g.quarter(s).value.0, 1, 1);
        QuarterMatch(g, text, first.year, g.quarter(s).value.1)
      else if g.base(s).None? then Done(None)
      else
        match g.base(s).value
        case WeekBefore(target) => Done(WeekBeforeMatch(g, s, target))
        case Explicit(_, _, _) => Done(ExplicitMatch(g, s))
        case Natural => Done(ExplicitMatch(g, s))
        case _ => Done(None)
  }

  /** `normalize_temporal_expression`, also the resolution step of
      `normalize_temporal_text`: always a match, unless something raises. */
  function Normalize(g: Grammar, text: string, reference: Option<Moment>): (r: Attempt<TemporalMatch>)
    requires g.Shrinks()
    ensures r.Done? ==> IsFaithful(g, text, r.value) && (g.Subsumes() ==> InOrder(r.value))
    ensures r.Done? && reference.None? && r.value.start.None? ==> r.value.normalized == text
  {
    if reference.None? then
      var explicit :- ResolveWithoutReference(g, text);
      Done(if explicit.Some? then explicit.value else Unresolved(text, NoReference))
    else
      var extra :- ResolveExtra(g, text, reference);
      if extra.Some? then Done(extra.value)
      else
        var base :- ResolveMatch(g, text, reference.value);
        Done(if base.Some? then base.value else Unresolved(text, UnknownExpression))
  }
}
