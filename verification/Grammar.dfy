/** What the regular expressions of the temporal module recognise, and the
    records that its resolvers return. */
module Grammar {
  import opened Attempts
  import opened Moments
  import opened Periods
  import opened Text
  import opened Iso

  // ---- results -------------------------------------------------------------

  datatype Precision = Unknown | Exact | Whole(unit: Unit)

  datatype Basis = ExplicitDate | Relative | NoReference | UnknownExpression

  /** `TemporalMatch`; `start` is both `resolved_at` and `event_start`, `end`
      both `end_at` and `event_end`, which the class keeps equal. */
  datatype TemporalMatch = TemporalMatch(
    original: string,
    normalized: string,
    start: Option<Moment>,
    end: Option<Moment>,
    precision: Precision,
    basis: Basis)

  /** A resolver raises, declines (None) or returns a match. */
  type Reading = Attempt<Option<TemporalMatch>>

  // ---- parsed shapes -------------------------------------------------------

  type WeekdayNumber = n: int | 0 <= n < 7
  type DateUnit = u: Unit | IsDateUnit(u) witness Day
  type PeriodUnit = u: Unit | IsPeriod(u) witness Week
  type AroundUnit = u: Unit | u == Week || u == Month || u == Quarter witness Week
  type LongPeriod = u: Unit | IsPeriod(u) || u == Quarter witness Week

  /** An absolute date as written; it need not exist. */
  datatype Absolute =
    | OnDay(year: int, month: int, day: int)
    | InMonth(year: int, month: int)
    | InYear(year: int)

  datatype Meridiem = AM | PM | NoMeridiem

  /** A full match of the clock pattern; the fraction is in microseconds. */
  datatype RawClock = RawClock(hour: int, minute: int, second: int, fraction: int, meridiem: Meridiem)

  type Clock = c: RawClock | 0 <= c.hour && 0 <= c.minute && 0 <= c.second && 0 <= c.fraction < MICROS_PER_SECOND
    witness RawClock(0, 0, 0, 0, NoMeridiem)

  /** A full match of `_EXPRESSION_RE`. */
  datatype BaseShape =
    | WeekBefore(target: string)
    | DayWord(offset: int)
    | Period(offset: int, unit: PeriodUnit)
    | DirectedWeekday(direction: int, weekday: WeekdayNumber)
    | Ago(count: nat, agoUnit: DateUnit)
    | BareWeekday(day: WeekdayNumber)
    | Explicit(year: int, month: int, dayOfMonth: int)
    | Natural

  /** The final patterns of `_resolve_extra_expression`. */
  datatype ExtraShape =
    | ExtraNow
    | ExtraPoint(count: nat, unit: DateUnit)
    | ExtraSpan(direction: Direction, over: bool, spanCount: nat, spanUnit: DateUnit)
    | ExtraDay(ahead: bool)
    | ExtraWeek(before: bool, period: string)
    | ExtraTimed(dayWord: string, clock: Option<Clock>)

  datatype Direction = Past | Back | Forward

  /** The prefixed spans of `_extended_interval_match`. */
  datatype Directed = Directed(direction: Direction, fromNow: bool, count: Option<real>, unit: Unit)

  datatype Duration = Duration(count: Option<real>, unit: Unit)

  datatype DayPart = Morning | Afternoon | Evening | Night | Noon | MidnightPart | AtClock(clock: Option<Clock>)

  /** The patterns of `_resolve_additional_expression` after its intervals;
      no text matches two of them. The period of a week beside one is None when
      its unit is not in lower case. */
  datatype AdditionalShape =
    | Now
    | Tonight
    | NoonOrMidnight(noon: bool)
    | TimedDay(offset: int, part: DayPart)
    | UnitOf(whole: AroundUnit, target: string)
    | WeekBeside(before: bool, periodOffset: int, period: Option<LongPeriod>)
    | PartOfPeriod(dayOffset: int, part: DayPart)
    | DayBeside(ahead: bool)
    | ExtendedPeriod(periodDirection: int, unit: LongPeriod)
    | Weekend(weekendOffset: int)
    | NamedWeekday(direction: int, weekday: WeekdayNumber)
    | NamedQuarter(year: int, quarter: int)
    | Point(back: bool, count: Option<real>, pointUnit: Unit)

  datatype ClockWord = NoonWord | MidnightWord | ClockWord(clock: Option<Clock>)

  datatype ShortRange = ShortRange(year: int, month: int, first: int, last: int)

  /** One field per regular expression: the captures of a full match, or None.
      Only the plain ISO date and the "date through date" interval are read
      concretely; everything proved holds for every choice of the others. */
  datatype Grammar = Grammar(
    stamp: Moment -> string,
    absolute: string -> Option<Absolute>,
    isoMoment: string -> Option<Moment>,
    naturalMoment: string -> Option<(string, Option<Clock>)>,
    base: string -> Option<BaseShape>,
    shortRange: string -> Option<ShortRange>,
    weekOf: string -> Option<string>,
    monthOf: string -> Option<string>,
    interval: string -> Option<(string, string)>,
    relativeInterval: string -> Option<(string, string)>,
    extra: string -> Option<ExtraShape>,
    until: string -> Option<string>,
    split: string -> Option<(string, string)>,
    bareWeekday: string -> Option<WeekdayNumber>,
    barePeriod: string -> bool,
    directed: string -> Option<Directed>,
    duration: string -> Option<Duration>,
    additional: string -> Option<AdditionalShape>,
    yearOnly: string -> Option<int>,
    clockWord: string -> Option<ClockWord>,
    weekBeforeNextMonth: string -> bool,
    quarter: string -> Option<(int, int)>)
  {
    /** Every captured sub-expression is strictly shorter than the text it was
        captured from, because its pattern also consumes a keyword, a
        separator or a dash. */
    ghost predicate Shrinks() {
      && (forall s :: weekOf(s).Some? ==> |weekOf(s).value| < |s|)
      && (forall s :: monthOf(s).Some? ==> |monthOf(s).value| < |s|)
      && (forall s :: until(s).Some? ==> |until(s).value| < |s|)
      && (forall s :: interval(s).Some? ==> |interval(s).value.0| < |s| && |interval(s).value.1| < |s|)
      && (forall s :: relativeInterval(s).Some? ==>
            |relativeInterval(s).value.0| < |s| && |relativeInterval(s).value.1| < |s|)
      && (forall s :: split(s).Some? ==> |split(s).value.0| < |s| && |split(s).value.1| < |s|)
      && (forall s :: extra(s).Some? && extra(s).value.ExtraWeek? ==> |extra(s).value.period| < |s|)
      && (forall s :: extra(s).Some? && extra(s).value.ExtraTimed? ==> |extra(s).value.dayWord| < |s|)
      && (forall s :: additional(s).Some? && additional(s).value.UnitOf? ==> |additional(s).value.target| < |s|)
    }

    /** Every text of the counted spans of `_resolve_extra_expression` is also
        one of the prefixed spans of `_extended_interval_match`. */
    ghost predicate Subsumes() {
      forall s :: extra(s).Some? && extra(s).value.ExtraSpan? ==> ReadsDirected(AdditionalText(s))
    }

    predicate ReadsDirected(c: string) {
      !weekBeforeNextMonth(c) && !barePeriod(Collapse(c)) && directed(Collapse(c)).Some?
    }

    /** Printed dates and intervals start with a digit and contain only dates,
        so none of these patterns matches them. */
    ghost predicate LeavesIsoAlone() {
      && (forall s :: IsIsoShape(s) || IsIsoInterval(s) ==> LeavesAlone(s))
      && (forall s :: IsIsoShape(s) ==> interval(s).None? && relativeInterval(s).None?)
    }

    ghost predicate LeavesAlone(s: string) {
      && isoMoment(s).None? && naturalMoment(s).None? && shortRange(s).None?
      && weekOf(s).None? && monthOf(s).None? && until(s).None? && !weekBeforeNextMonth(s)
    }
  }

  // ---- prefixes and trailing punctuation -----------------------------------

  function Lower(c: char): char {
    if 'A' <= c <= 'Z' then (c as int + 32) as char else c
  }

  predicate StartsWithWord(s: string, w: string) {
    && |w| < |s|
    && (forall i :: 0 <= i < |w| ==> Lower(s[i]) == w[i])
    && IsSpace(s[|w|])
  }

  /** `re.sub(r"^(?:w1|w2|...)\s+", "", s)`, ignoring case. */
  function StripLead(s: string, ws: seq<string>): (t: string)
    ensures |t| <= |s|
    ensures s != [] && IsDigit(s[0]) && (forall i :: 0 <= i < |ws| ==> ws[i] != [] && !IsDigit(ws[i][0])) ==> t == s
  {
    if ws == [] then s
    else if StartsWithWord(s, ws[0]) then SkipSpace(s[|ws[0]|..])
    else StripLead(s, ws[1..])
  }

  /** `s.rstrip(".,!?;:")`. */
  function TrimEnd(s: string): (t: string)
    ensures |t| <= |s|
  {
    if s != [] && s[|s| - 1] in ".,!?;:" then TrimEnd(s[..|s| - 1]) else s
  }

  /** The candidate of `_resolve_additional_expression`. */
  function AdditionalText(s: string): (t: string)
    ensures |t| <= |s|
  {
    CollapseRuns(StripLead(Strip(s), ["on", "around", "about", "approximately"]))
  }
}
