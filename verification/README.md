# A Dafny model of Contexta's temporal, slot-key, ingestion, backfill, rate-limit, graph and matching code

The project models six parts of Contexta and proves what they keep, over all
inputs and all runs. `dafny verify dfyconfig.toml` checks it.

| part of the system | modules |
|---|---|
| Temporal normaliser | `Attempts`, `Calendar`, `Moments`, `Periods`, `Text`, `Iso`, `Grammar`, `Branches`, `Meanings`, `NamedDates`, `NamedTimes`, `Resolvers`, `Precedence`, `Normalisation`, `Spans`, `Rewriting` |
| Fact-slot keys | `SlotKeys`, `SlotFields` |
| Memory table and fact-key backfill | `MemoryTable`, `Backfill`, `BackfillRun`, `BackfillApply` |
| Ingestion, stages three to five | `Batch`, `BatchFates`, `Supersession`, `Insertion`, `Orchestrator`, `PipelineKeys` |
| MCP rate limiter | `TokenBucket`, `RateGuarantees`, `RateAccounts` |
| Graph edges of `remember` | `EdgeUpsert` |
| Claim matching of the extraction benchmark | `ClaimMatching` |

## How the code is modelled

* **Temporal normaliser.** Dates are (year, month, day) with an ordinal day
  number, in years 1 to 9999; datetimes are a date and the microseconds since
  its midnight, in one zone. An exception that reaches the caller is `Raised`.
  Each regular expression is a field of the datatype `Grammar`: a function from
  a text to its captures. Only the plain ISO date and the `d through e` interval
  are read concretely. The theorems hold for every grammar that satisfies the
  predicates they name: `Shrinks` (a captured sub-expression is strictly shorter
  than its text), `Subsumes` (the prefixed spans of lines 1075-1126 recognise
  whatever the counted spans of lines 911-938 do) and `LeavesIsoAlone` (printed
  dates are not taken for anything else).
* **Slot keys.** Payloads are a JSON datatype; SHA-256 is an arbitrary function,
  injective only where a lemma says so; case folding is a character-wise
  function that keeps whitespace.
* **Table.** Rows with an identifier, a tenant, a user, a memory type, a key and
  whether they are current; the partial unique index is `UniqueSlots`. A store
  holds the session's view and the last committed one.
* **Ingestion.** The deduplicator's verdicts, the engine's status,
  contradiction and refusal decisions, and new identifiers are parameters; what
  the engine does with them is modelled.
* **Rate limiter.** Arithmetic over reals; one step function for a table that
  never forgets, the local one and the Redis one.
* **Edges.** A table lists its edges newest first; where a new row stands in
  that order is a parameter.

## What the proofs found

* *Quarters.* `this/last/next quarter` and `quarter of X` count the months of
  the quarter from the reference's own month: the bounds are the intended ones
  exactly when it is January (`Periods.QuarterBranchOnlyInJanuary`), and "this
  quarter" contains its reference exactly in January to March.
* *Weekends.* "This weekend" is over before its reference, from every reference:
  from a workday it is last week's Saturday and Sunday, from a Saturday or Sunday
  the Monday and Tuesday before. The reference's own weekend is named only by the
  forward directions, and only from a workday.
* *Clock times.* Only the hour 12 is changed by a.m.: "13 am" is read as 13:00. A
  marked time is from noon on exactly when it is marked p.m. or its hour is above
  12.
* *Week beside a period.* The unit of "week before last MONTH" is not folded to
  lower case and raises.
* *Bare weekdays.* "This week" on one path and "on or after" on the other: one
  date exactly when the weekday is not yet past.
* *Zero counts.* "0 days ago" is one day ago on the extended path; the two
  readings agree exactly when the count is not 0. The counted spans of lines
  911-938, all but "over the next", would be inverted for a count of 0; they are
  not reached because the prefixed spans are tried first, and the order of
  intervals rests on that
  (`Normalisation.CountedSpansNeedSubsumption` shows the hypothesis is needed).
* *Intervals to a weekday.* A weekday that would end an interval before its start
  is counted from the start, and from a start that is a week it is right exactly
  when that week starts on a Monday. A weekend counts as a week and starts on a
  Saturday, so that "Friday" becomes a Wednesday (`Precedence.WeekendToFriday`).
* *Last N units.* The two readings of such a span differ for every unit but
  days: the one that is used ends one whole unit before the reference, the other
  one day before it.
* *Slot keys.* The docstring at `contexta/core/pipeline.py:175-176` says that two
  memories stating different facts never collide. The separator of line 118 is
  whitespace and line 83 collapses it, so a key depends only on the words of the
  slot in order. Among payloads that name no explicit slot, a fact is kept apart
  from all different ones exactly when it has three words in all. A payload that
  names its slot explicitly can share any fact's key (`SlotKeys.NameTakesKey`).
* *Backfill.* Without collisions every intermediate table satisfies the index
  exactly when no row is given a key that a later row still holds; that follows when only keys
  without the new prefix change, and can fail otherwise. The figure printed as
  `collisions introduced` is, without collisions, the number of rows given
  their first key; a collision makes it smaller unless that is 0.
* *Ingestion.* The index ignores the memory type and the plan does not. A memory
  whose slot is held by a current row of another type is never blocked, whatever
  the engine decides, and a run is refused exactly when it has such a memory left
  to store.
* *Rate limiter.* Forgetting idle identities is invisible, and the cost of every
  window bounded by burst plus rate times length, exactly when
  burst <= 300 * rate (local) or burst <= 120 * rate (Redis). Beyond that an
  identity can spend its burst twice in one such window, and in the local table a
  call by one identity can refill another's bucket. A refused call costs nothing,
  in Redis exactly when burst <= 120 * rate: beyond that, retrying renews keys that
  would have expired full.
* *Edges.* Only the source's twenty newest edges are read. Over any calls, one
  edge per pair is kept exactly when no call that succeeds has a step whose pair
  has an edge but none among those twenty; a second edge, once there, stays. Up to
  twenty-one entities that never happens; with twenty-two a pair can get a second
  edge. If the hidden edge is the very edge to be created, the statement, and with
  it the call, fails.

## Model

| member | source | states |
|---|---|---|
| Calendar.AddDays | contexta/core/temporal.py:666-670 | Defined exactly inside years 1 to 9999, where it moves the ordinal day number by the count |
| Calendar.OrdinalOrder | contexta/core/temporal.py:856-857 | Ordinal day numbers order dates, and tell them apart, as date comparison does |
| Calendar.FromOrdinalInverts | contexta/core/temporal.py:666-670 | The date of a date's ordinal is that date, so day arithmetic loses nothing |
| Calendar.AddMonths | contexta/core/temporal.py:541-546 | Defined exactly when the target month lies in years 1 to 9999; lands in the month that many months on, on the day clamped to its length |
| Calendar.AddMonthsOrder | contexta/core/temporal.py:541-546 | Strictly monotone in the count, both directions |
| Calendar.AddMonthsMonotone | contexta/core/temporal.py:541-546 | Monotone in the date: clamping may merge dates but never swaps them |
| Calendar.AddMonthsComposes | contexta/core/temporal.py:541-546 | Two shifts reach the month of the single shift on the same day or earlier; the same day exactly when the month passed through is long enough for the day or no shorter than the one reached |
| Calendar.AddMonthsExactUpTo28 | contexta/core/temporal.py:541-546 | Days up to the 28th compose exactly, and shifting back undoes the shift |
| Calendar.MonthLengths | contexta/core/temporal.py:541-546 | Month lengths and leap years are those of the Gregorian calendar |
| Calendar.EpochDay | contexta/core/temporal.py:856-857 | Day numbers and weekdays are anchored: 1970-01-01 is day 719163, a Thursday |
| Moments.UnitsNest | contexta/core/temporal.py:1008-1016 | A second is a million microseconds, and sixty seconds, sixty minutes, twenty-four hours and seven days nest as they should |
| Moments.ShiftsAgree | contexta/core/temporal.py:1008-1020 | For every whole count the extended shift keeps the clock time and moves the date as `_shift_date` does, raising together |
| Moments.ExtendedDateAtAgrees | contexta/core/temporal.py:1023-1027 | For every whole count `_extended_date_at` is midnight of `_shift_date` |
| Moments.AgoIsNegativeShift | contexta/core/temporal.py:1691-1700 | The arithmetic of "N units ago" is the shift by minus N |
| Moments.ExtendedAgo | contexta/core/temporal.py:1691-1707 | The extended reading of N units ago is midnight of the other reading's date |
| Moments.AgoPathsAgreeUnlessZero | contexta/core/temporal.py:1477-1490 | With 0 read as 1 on the extended path only, both readings agree, raising included, exactly when the count is not 0 |
| Moments.ExtendedDateAtMonotone | contexta/core/temporal.py:1023-1027 | Monotone in the amount, fractions included |
| Moments.ExtendedDateAtAhead | contexta/core/temporal.py:1023-1027 | A whole positive count never lands before the reference, although the result is floored to midnight |
| Periods.PeriodsPartition | contexta/core/temporal.py:1561-1574 | The period at an offset holds exactly the dates whose running week, month or year number is the reference's plus the offset: offset 0 contains the reference, offsets never overlap, nothing is left out |
| Periods.PeriodsAbut | contexta/core/temporal.py:1561-1574 | The day after one period's end is the next one's start |
| Periods.PeriodShape | contexta/core/temporal.py:1561-1574 | Weeks run Monday to Sunday, months from the 1st to their true last day, years from 1 January to 31 December |
| Periods.MonthEnd | contexta/core/temporal.py:1040-1044 | A run of months from a 1st ends on the true last day of its last month |
| Periods.PeriodOrdered | contexta/core/temporal.py:1047-1072 | The extended bounds of every unit run forwards |
| Periods.ExtendedAgrees | contexta/core/temporal.py:1047-1072 | For week, month and year the extended bounds are the plain ones |
| Periods.QuarterBoundsTrue | contexta/core/temporal.py:1040-1044 | `_quarter_bounds` of a date's year and quarter is that calendar quarter |
| Periods.QuarterBranchOnlyInJanuary | contexta/core/temporal.py:1065-1068 | The quarter branch is the intended quarter exactly when the reference is in January |
| Periods.ThisQuarterContainsReference | contexta/core/temporal.py:1065-1068 | "this quarter" contains the reference exactly in January to March |
| Periods.WeekendDays | contexta/core/temporal.py:1405-1412 | From a workday the branch names a Saturday and Sunday: of the week before for "this", two weeks before for "last", the reference's own week forwards; from a Saturday or Sunday a Monday and Tuesday, of the week before for "last" and of the own week otherwise |
| Periods.ThisWeekendIsPast | contexta/core/temporal.py:1405-1412 | "this weekend" ends before its reference, from every reference, and so never contains it |
| Periods.WeekendIsOff | contexta/core/temporal.py:1405-1412 | No direction names the weekend that many weeks from the reference's own; the reference's own weekend is named exactly by the forward directions from a workday |
| Iso.IsoRoundTrip | contexta/core/temporal.py:612-616 | Reading a printed date gives the date back |
| Iso.IsoRoundTripText | contexta/core/temporal.py:551-555 | Printing a read date gives the text back |
| Iso.IsoTextsAreTidy | contexta/core/temporal.py:602-616 | Printed dates and intervals are unchanged by trimming and collapsing and start with a digit |
| Text.WordsOfCollapse | contexta/core/temporal.py:701-703 | Collapsing whitespace keeps the words of a text |
| Branches.BareWeekdayReadings | contexta/core/temporal.py:1709-1712 | The two readings of a bare weekday are one date exactly when it is not yet past in the reference's week |
| NamedDates.DirectedIs | contexta/core/temporal.py:1670-1682 | A directed weekday is the one date that is meant: for "last" the latest such day before the reference, for "this" and "next" that of the reference's Monday week or the week after; it raises exactly when there is no such date |
| NamedDates.NextOnIs | contexta/core/temporal.py:1709-1712 | A bare weekday is the earliest such day from the reference on, and raises exactly when there is none |
| NamedDates.ShiftIs | contexta/core/temporal.py:666-675 | The shift by N units is the one date that many days, weeks, months or years away, its day cut to the month's length, and raises exactly when there is none |
| NamedDates.BaseNamesDay | contexta/core/temporal.py:1646-1720 | Today, yesterday, tomorrow, a weekday and N units ago give a match on the one day they name, without an end, and raise exactly when there is no such day |
| NamedDates.BaseNamesPeriod | contexta/core/temporal.py:1656-1668 | "last/this/next week, month, year" covers exactly the dates whose running week, month or year number is the reference's plus the offset; it raises exactly when that leaves the calendar |
| NamedDates.AroundNamesPeriod | contexta/core/temporal.py:1325-1345 | "week, month, quarter of X" covers exactly the period around X, the quarter counted from X's own month, and raises exactly when it leaves the calendar |
| NamedDates.ExplicitMeans | contexta/core/temporal.py:549-656 | A written day is a match on that day, a written month or year one that covers exactly its dates; declined exactly when nothing is written, or nothing that has a date |
| NamedDates.BaseMeans | contexta/core/temporal.py:1629-1742 | Every pattern of `_resolve_match` but "week before" gives the dates it names, and raises or declines exactly when there are none |
| NamedTimes.ClockMeans | contexta/core/temporal.py:678-698 | A clock time has the written minute, second and fraction, and the written hour on the half of the day its mark asks for; declined exactly when a part is too large |
| NamedTimes.TimedDayMeans | contexta/core/temporal.py:1289-1313 | A part of a day is 9, 14, 18 or 21 o'clock, noon, midnight or the clock time of that day |
| NamedTimes.AdditionalNamesMoment | contexta/core/temporal.py:1267-1443 | "now", "tonight", "noon", "tomorrow morning", "last night", "day after tomorrow" and a weekday give the moment or the one day they name, raising exactly when there is none |
| NamedTimes.AdditionalNamesPeriod | contexta/core/temporal.py:1396-1414 | The extended "last/this/next" period covers exactly its dates, for quarters those of the three months counted from the reference's own |
| NamedTimes.NamedQuarterMeans | contexta/core/temporal.py:1040-1044 | A named quarter covers exactly its three months of the year, and raises exactly outside the years 1 to 9999 or for the last quarter of 9999 |
| NamedTimes.AdditionalNamesWeekend | contexta/core/temporal.py:1405-1412 | A weekend match starts on the day that `Periods.WeekendDays` gives and ends the day after; it raises exactly when those days leave the calendar |
| NamedTimes.WeekBesideMeans | contexta/core/temporal.py:1347-1372 | The week beside a period has seven days, and the day between them lies in the period |
| NamedTimes.DirectedMeans | contexta/core/temporal.py:1092-1110 | For a whole count, 0 read as 1: the past N units end with the reference's own, the last N with the one before it, the next N start with the next one or, after "over" and its like, with its own; raises exactly when one end does |
| NamedTimes.DurationMeans | contexta/core/temporal.py:1112-1124 | "for N units" runs from the reference to exactly N units later, and raises exactly when that does |
| Meanings.SpanReadings | contexta/core/temporal.py:1097-1110 | For counts from 1 the prefixed and the counted reading of a span start together, and end together except that "last N units" agree exactly for days |
| Branches.ExtraSpanOrder | contexta/core/temporal.py:911-938 | The counted spans run forwards exactly when the count is at least 1, or 0 in an "over the next" span |
| Branches.DirectedMatch | contexta/core/temporal.py:1075-1126 | Every prefixed past, last or next span runs forwards and shows its bounds |
| Branches.DurationMatch | contexta/core/temporal.py:1075-1126 | "for N units" starts at the reference's clock time and never ends before it |
| Branches.ExtendedIntervalMatch | contexta/core/temporal.py:1075-1126 | Every match runs forwards and its text is its printed bounds |
| Branches.AroundIsThisPeriod | contexta/core/temporal.py:1325-1337 | "week, month or quarter of X" is "this" period around X, quarter error included |
| Branches.AroundMatch | contexta/core/temporal.py:1338-1345 | Its match runs forwards and keeps the target's basis |
| Branches.UntilMatch | contexta/core/temporal.py:1247-1257 | "until X" starts no later than the reference, ends where X does and runs forwards; it is given whenever X is not before the reference |
| Branches.AgoReadings | contexta/core/temporal.py:1466-1491 | The two readings of N units ago start together, or raise together, exactly when N is not 0 |
| Branches.ExplicitMatch | contexta/core/temporal.py:651-656 | An absolute date shows its bounds, runs forwards and counts as explicit |
| Branches.WeekBeforeMatch | contexta/core/temporal.py:1547-1558 | "week before" an absolute day is the one day seven days earlier, and shows itself |
| Branches.TimedDayMatch | contexta/core/temporal.py:1289-1313 | A point on that day without an end: noon, midnight, the hour of the part of day, or the clock time, which alone may be impossible |
| Branches.PointMatch | contexta/core/temporal.py:1466-1491 | "in N units" and "N units ago" give one point without an end |
| Meanings.PointMeans | contexta/core/temporal.py:1466-1491 | For every unit and a whole N, 0 read as 1, that point is midnight of the date N days, weeks, months or years ahead or back, of the date 3N months away for quarters, and the exact span away for seconds, minutes and hours; it raises exactly when that does |
| Meanings.PointsInOrder | contexta/core/temporal.py:1466-1491 | For every unit and fractional counts too, a greater count never names an earlier point ahead nor a later one back |
| Meanings.MeridiemMeans | contexta/core/temporal.py:678-698 | A clock time marked a.m. or p.m. is from noon on exactly when it is marked p.m. or its hour is above 12 |
| Meanings.ThirteenInTheMorning | contexta/core/temporal.py:690-698 | "13 am" is read, as 13:00 |
| Branches.PeriodMatch | contexta/core/temporal.py:1413-1414 | A last, this or next period runs forwards |
| Branches.WeekBesideMatch | contexta/core/temporal.py:1347-1372 | The week that ends the day before a period, or starts the day after it; raises for a unit that is not in lower case |
| Branches.WeekendMatch | contexta/core/temporal.py:1405-1412 | The weekend match runs forwards, whichever days it names |
| Branches.QuarterMatch | contexta/core/temporal.py:1605-1614 | A named quarter runs forwards, shows its bounds and counts as explicit |
| Branches.AdditionalMatch | contexta/core/temporal.py:1267-1493 | Every pattern after the intervals gives a match that runs forwards and shows its bounds; which they are is said by the lemmas of `NamedTimes` |
| Branches.BaseMatch | contexta/core/temporal.py:1629-1742 | Every pattern of `_resolve_match` but "week before" runs forwards and shows its bounds; which dates they are is `NamedDates.BaseMeans` |
| Branches.ParseExact | contexta/core/temporal.py:701-729 | An exact value has no end and counts as explicit |
| Resolvers.ParseEndpoint | contexta/core/temporal.py:732-752 | Terminates; its match runs forwards, shows its bounds, and without a reference counts as explicit |
| Resolvers.ResolveInterval | contexta/core/temporal.py:774-863 | Terminates; its match runs forwards and shows its bounds |
| Resolvers.ResolveSides | contexta/core/temporal.py:840-863 | Two endpoints join to an interval that runs forwards, or are declined |
| Precedence.SidesJoin | contexta/core/temporal.py:840-863 | Two endpoints join to the interval from the left one's start to the right one's end, or its start when it has no end; declined exactly when that is before the start |
| Precedence.ExtendedSidesJoin | contexta/core/temporal.py:1197-1228 | So do extended endpoints, except that a bare weekday that would end the interval before its start is taken from the start on |
| Precedence.WeekdayAfterMeans | contexta/core/temporal.py:1213-1220 | That weekday is the earliest one from the start on, or as many days on from a start that is a week |
| Precedence.WeekdayAfterIsThatDay | contexta/core/temporal.py:1213-1220 | The interval then ends on the weekday named exactly when its start is not a week or is one that starts on a Monday |
| Precedence.WeekendToFriday | contexta/core/temporal.py:1213-1220 | From a weekend that starts on a Saturday a Friday so taken is the Wednesday after |
| Precedence.ShortRangeMeans | contexta/core/temporal.py:780-798 | A range of days of one month covers exactly those days; declined exactly when it is inverted or an end does not exist |
| Precedence.ExactMeans | contexta/core/temporal.py:701-729 | An exact value is a printed date, an ISO moment, or a written date with its clock time, in that order, and nothing else |
| Precedence.EndpointReadsBase | contexta/core/temporal.py:732-752 | An endpoint that is no exact value is read by `_resolve_match` first, as the dates it names |
| Precedence.ExtendedEndpointReads | contexta/core/temporal.py:1129-1163 | An extended endpoint that is no exact value is a year alone, or else what `_resolve_match` reads, or a clock word once the later patterns decline |
| Precedence.YearMeans | contexta/core/temporal.py:1138-1141 | A year alone covers exactly its dates |
| Precedence.ClockWordMeans | contexta/core/temporal.py:1148-1163 | A clock word is noon, midnight or the written time of the reference's day |
| Precedence.ExtraMeans | contexta/core/temporal.py:895-948 | The final patterns give the moment, day or counted span they name |
| Precedence.ExtraTimedMeans | contexta/core/temporal.py:978-993 | "today at 5 pm" is that time of the day the word names |
| Precedence.ExtraWeekMeans | contexta/core/temporal.py:950-976 | The week before a period starts seven days before it, the week after it the day after it ends; both have seven days |
| Resolvers.Interval | contexta/core/temporal.py:840-843 | Both captured sides are strictly shorter than the interval |
| Resolvers.ShortRangeMatch | contexta/core/temporal.py:780-798 | A range of days of one month runs forwards or is declined |
| Resolvers.ClockWordMatch | contexta/core/temporal.py:1148-1163 | A clock time alone is a point on the reference's day without an end; noon and midnight are always given |
| Resolvers.Joined | contexta/core/temporal.py:1221-1228 | Declines exactly the inverted intervals; the basis is relative when either side's is |
| Resolvers.ResolveExtra | contexta/core/temporal.py:866-994 | Terminates; a match either shows its bounds, which run forwards, or keeps the words of the text; without a reference what resolves is explicit |
| Resolvers.ExtraMatch | contexta/core/temporal.py:900-994 | Every final pattern but the counted span gives a match that runs forwards |
| Resolvers.ExtendedEndpoint | contexta/core/temporal.py:1129-1163 | Terminates; its match runs forwards and shows its bounds |
| Resolvers.ResolveExtendedInterval | contexta/core/temporal.py:1191-1228 | Terminates; its interval runs forwards, after the weekday adjustment too |
| Resolvers.ResolveAdditional | contexta/core/temporal.py:1231-1493 | Terminates; its match runs forwards; and whenever the prefixed spans recognise the text with intervals allowed, it gives a match or raises, so the counted spans are not reached |
| Resolvers.ResolveUntil | contexta/core/temporal.py:1247-1257 | Terminates; its match runs forwards |
| Resolvers.ResolveShape | contexta/core/temporal.py:1267-1493 | Terminates; its match runs forwards |
| Resolvers.ResolveMatch | contexta/core/temporal.py:1629-1742 | Terminates; a match shows its bounds, which run forwards, or keeps the words of the text |
| Resolvers.ResolveWithoutReference | contexta/core/temporal.py:1591-1626 | Terminates; what it resolves runs forwards and shows its bounds |
| Resolvers.Normalize | contexta/core/temporal.py:1745-1768 | Always gives a match unless something raises; it shows its bounds, which run forwards, or keeps the words; without a reference an unresolved text is returned as it was |
| Precedence.ExactWins | contexta/core/temporal.py:886-888 | An exact value comes before everything else |
| Precedence.IntervalsWin | contexta/core/temporal.py:1259-1265 | Then intervals, and after them prefixed spans and durations, before every other pattern |
| Precedence.MomentNormalised | contexta/core/temporal.py:1745-1768 | A text that the patterns after the intervals are the first to match is normalised to the moment or day it names |
| Precedence.PeriodNormalised | contexta/core/temporal.py:1745-1768 | Or to the period it names |
| Precedence.AroundNormalised | contexta/core/temporal.py:1745-1768 | "the week of X" is normalised to the period around the start of X |
| Precedence.BaseNormalised | contexta/core/temporal.py:1745-1768 | A text that only `_resolve_match` reads, as "tomorrow", is normalised to the dates it names, and raises exactly when there are none |
| Precedence.BaseWithoutReference | contexta/core/temporal.py:1591-1626 | Without a reference such a text is normalised to the written date, and returned unresolved when it is relative |
| Precedence.QuarterWithoutReference | contexta/core/temporal.py:1595-1614 | A named quarter is normalised without a reference |
| Normalisation.IsoDateResolves | contexta/core/temporal.py:866-994 | A printed day resolves to that day under every reference and grammar that leaves it alone |
| Normalisation.IsoIntervalResolves | contexta/core/temporal.py:840-863 | A printed interval of days resolves to that interval |
| Normalisation.NormalisedTextIsStable | contexta/core/temporal.py:1745-1768 | Normalising is idempotent: the text written for a day-aligned match resolves, under any reference or none, to the same bounds and text |
| Spans.SelectSpans | contexta/core/temporal.py:1521-1530 | The loop over the sorted hits computes the selection |
| Spans.SortSorted | contexta/core/temporal.py:1521 | The sort is ordered by start, length and priority and keeps the hits |
| Spans.SelectionIsLeftmostLongest | contexta/core/temporal.py:1496-1530 | Selected spans are hits, in order and disjoint, and every hit starts inside a selected one that starts no later and, from the same start, is the longer or as long and of better priority |
| Spans.SelectionIsUnique | contexta/core/temporal.py:1496-1530 | It is the only such selection |
| Rewriting.TemporalRecord.AttachSourceSpan | contexta/core/temporal.py:1533-1544 | Sets each given bound, and the span when both are given, and nothing else |
| Rewriting.RewriteSpans | contexta/core/temporal.py:1801-1827 | Raises exactly when resolving some span raises; otherwise the text is the splice, with one record per span carrying its match and source span |
| Rewriting.NormalizeText | contexta/core/temporal.py:1788-1846 | An exception exactly when a selected expression raises; otherwise the rewritten text, one record per match with its source span, and as bounds, precision and basis those of the first match that starts, or none and the basis that says whether there was a reference |
| Rewriting.SummaryIsFirst | contexta/core/temporal.py:1828-1843 | The summary is that of the first match that starts, for every list of matches |
| Rewriting.SliceBackIsIdentity | contexta/core/temporal.py:1801-1827 | Putting each slice back at its recorded span rebuilds the text |
| Rewriting.LandedFit | contexta/core/temporal.py:1821-1827 | Each replacement stands in the rewritten text where the lengths say |
| Rewriting.SpliceIsUndone | contexta/core/temporal.py:1801-1827 | Replacing what landed with the slices restores the text, whatever the replacements |
| Rewriting.RewriteIsUndone | contexta/core/temporal.py:1801-1827 | So the whole rewrite is undone: nothing outside the spans is altered and nothing is lost |
| Rewriting.NothingInvented | contexta/core/temporal.py:1806-1807 | Without a reference, a text whose expressions do not resolve alone is returned as it was |
| Text.CollapseThenStrip | contexta/core/pipeline.py:82-83 | Collapsing then trimming leaves the words of a text one space apart |
| SlotKeys.NormalisedIsEssence | contexta/core/pipeline.py:76-79 | Normalised text is the folded words one space apart; normalising again changes nothing |
| SlotKeys.NormalisedAlike | contexta/core/pipeline.py:76-79 | Two texts normalise alike exactly when their folded words are the same |
| SlotKeys.KeyIsDigestOfWords | contexta/core/pipeline.py:89-118 | A structural key is the digest of the slot's folded words one space apart, and there is one exactly when the slot is named |
| SlotFields.ExplicitSlotMeans | contexta/core/pipeline.py:102-105 | The slot is named by `fact_key`, or by `truth_key` where that is missing or falsy, through the nested `key` of a mapping that has one |
| SlotFields.FactKeyMeans | contexta/core/pipeline.py:102-189 | The key is the prefixed digest of the words of the explicit name, or else of subject, predicate, context and object in that order, where only texts and numbers have words; it is the text hash exactly when there are no such words |
| SlotKeys.KeysShared | contexta/core/pipeline.py:89-118 | Two payloads share a key exactly when their slots have the same folded words in order |
| SlotKeys.FamiliesApart | contexta/core/pipeline.py:182-189 | A structural key is 69 characters and never a fallback key |
| SlotKeys.LongFactHasDouble | contexta/core/pipeline.py:116-118 | With four words or more some different complete fact has the same words |
| SlotKeys.ShortFactIsAlone | contexta/core/pipeline.py:116-118 | With three words there is only one complete fact |
| SlotKeys.StatedKeysShared | contexta/core/pipeline.py:108-118 | Two payloads that state facts and name no explicit slot share a key exactly when the facts have the same words in order |
| SlotKeys.KeptApartOnlyWhenShort | contexta/core/pipeline.py:173-181 | Among payloads that name no explicit slot, no different fact shares a fact's key exactly when it has three words in all |
| SlotKeys.NameTakesKey | contexta/core/pipeline.py:102-107 | Under an explicit name any other fact can take any slot's key, three words or not: a payload that names the slot's words has its key |
| SlotKeys.BlankNameHidesFact | contexta/core/pipeline.py:102-107 | A blank explicit name leaves even a complete fact without a structural key |
| MemoryTable.MemoryStore.WriteKey | scripts/backfill_fact_keys.py:141-167 | Rewrites the key of the matching rows of the tenant, or changes nothing when the index would break; reports the rows matched |
| MemoryTable.PagedReadsAll | scripts/backfill_fact_keys.py:203-245 | Reading page after page gives every row of the tenant exactly once, in order, whatever the page size |
| MemoryTable.MemoryStore.SupersedeIfCurrent | contexta/repositories/memory_repo.py:1620-1638 | Closes the row if it is current, and reports whether it was |
| MemoryTable.MemoryStore.Insert | contexta/migrations/versions/20260926_0019_truth_maintenance.py:61-65 | A row enters exactly when the partial unique index still holds |
| Backfill.WritePathMakesStructural | scripts/backfill_fact_keys.py:131-138 | The write path's formula makes only keys with the new prefix |
| Backfill.AllWritten | scripts/backfill_fact_keys.py:252-257 | Writing every projected key gives the table with each row of the tenant rekeyed in place |
| Backfill.StaysUniqueExactly | scripts/backfill_fact_keys.py:252-257 | After every single write the index holds, exactly when no row is given a key that a later row still holds |
| Backfill.FirstBackfillIsSafe | scripts/backfill_fact_keys.py:252-257 | It holds throughout when the projection has no collision and every key that changes lacked the new prefix |
| Backfill.ChangingNewKeysCanClash | scripts/backfill_fact_keys.py:252-257 | Without that premise, for the script's own formula and any two payloads that name different slots: a row holding the key an earlier row is due breaks the index between two writes, although the first and the last table satisfy it |
| BackfillRun.CountedTallies | scripts/backfill_fact_keys.py:238-242 | A counter holds exactly the slots that occur, each with its number of rows |
| BackfillRun.SlotsAtMostRows | scripts/backfill_fact_keys.py:247-248 | There are at most as many slots as placed rows, and as many exactly when no two share one |
| BackfillRun.CollisionsExact | scripts/backfill_fact_keys.py:288-300 | Collisions are reported exactly when the rewritten table would break the index |
| BackfillRun.TenantReport.Note | scripts/backfill_fact_keys.py:210-242 | One scanned row moves exactly the counters it belongs to |
| BackfillRun.ScanAddsUp | scripts/backfill_fact_keys.py:210-230 | Scanned is with plus without a triple; with a triple is current already plus rekeyed |
| BackfillRun.ScanPage | scripts/backfill_fact_keys.py:209-242 | One page extends the report, the projection and both counters by its rows |
| BackfillRun.ScanTenant | scripts/backfill_fact_keys.py:204-245 | The paged pass counts and projects every row of the tenant exactly once |
| BackfillApply.RekeyedIsFixed | scripts/backfill_fact_keys.py:262-268 | A rewritten tenant has no outstanding row, rewriting again changes nothing, and other tenants are untouched |
| BackfillApply.RekeyedExactly | scripts/backfill_fact_keys.py:215-268 | The rewrite gives a row of the tenant the formula's key when there is one and changes nothing else; a row is outstanding exactly when that changes it |
| BackfillApply.SlotsBeforeAreRows | scripts/backfill_fact_keys.py:247 | While the index holds, the slots before are the current keyed rows |
| BackfillApply.CollisionsIntroducedCountsFirstKeys | scripts/backfill_fact_keys.py:104-106 | The reported number is at most the rows given their first key, and exactly that number when there is no collision; when it reaches a positive such number there is none |
| BackfillApply.WriteIsSingle | scripts/backfill_fact_keys.py:252-257 | Every write of the pass matches exactly one row |
| BackfillApply.CountOutstanding | scripts/backfill_fact_keys.py:271-285 | Counts the tenant's rows that are off their formula, across pages |
| BackfillApply.ProjectTenant | scripts/backfill_fact_keys.py:196-249 | The report of a tenant: its counts, slots and collisions |
| BackfillApply.WriteOne | scripts/backfill_fact_keys.py:252-253 | One write is accepted exactly when the table after it satisfies the index, and nothing changes otherwise |
| BackfillApply.WriteAll | scripts/backfill_fact_keys.py:252-258 | The pass commits the rekeyed table exactly when the index holds after every write, and otherwise rolls back |
| BackfillApply.BackfillTenant | scripts/backfill_fact_keys.py:188-268 | A dry or refused run writes nothing; an applied one leaves the rekeyed table with nothing outstanding; it fails exactly when some write would break the index; the table satisfies its constraints in every case |
| Batch.ValidSlotsDiffer | contexta/core/pipeline.py:356-411 | No two memories left to store name the same slot |
| Batch.FoldedOrValid | contexta/core/pipeline.py:356-411 | Every extracted memory is folded with an entry or left to store, once |
| Batch.LookupsDecide | contexta/core/pipeline.py:364-386 | Looking both keys up decides whether a memory is the first of its text and of its slot |
| Batch.NextFate | contexta/core/pipeline.py:364-398 | One memory's two keys are looked up and claimed, and it gets the fate that `BatchFates.StoredExactly` and `FoldedExactly` state |
| Batch.FoldBatch | contexta/core/pipeline.py:353-411 | The loop gives the memories to store, the entries of the others, and counters that match the entries |
| BatchFates.StoredExactly | contexta/core/pipeline.py:356-411 | A memory is left to store exactly when it opens its slot and its verdict is to store it; they keep their order |
| BatchFates.FoldedExactly | contexta/core/pipeline.py:356-398 | Every other memory has one entry, in order: merged in the batch exactly when it does not open its slot, and otherwise merged or discarded as its verdict says |
| BatchFates.FoldedCounts | contexta/core/pipeline.py:366-398 | The merged entries number the memories that repeat or are merged, the discarded ones those that open their slot and are discarded |
| Batch.OrchestrationResult.Note | contexta/core/pipeline.py:366-371 | An entry is appended and exactly its counter moves |
| Supersession.OneCandidate | contexta/core/truth/service.py:710-738 | While the index holds a slot has at most one current row, so at most one candidate |
| Supersession.BlockedClosesNothing | contexta/core/truth/service.py:673-677 | A blocked record closes no incumbent |
| Supersession.ClosedExactly | contexta/core/truth/service.py:610-677 | The plan closes exactly the rows that some record contradicts, as their slot's candidate, unless the engine refuses or the record is itself superseded, and changes nothing else |
| Supersession.BlockedExactly | contexta/core/truth/service.py:610-677 | A record is blocked exactly when it has a candidate that it does not contradict, that the engine refuses to close, or that it may not close because it is superseded |
| Supersession.Candidates | contexta/core/truth/service.py:710-738 | Exactly the current rows of the record's slot and type outside the batch |
| Supersession.CloseCandidate | contexta/core/truth/service.py:644-656 | Closes the candidate exactly when it is contradicted and not refused |
| Supersession.PlanOne | contexta/core/truth/service.py:610-677 | Closes what the record may close, and blocks it exactly when a candidate stays current |
| Supersession.PlanStep | contexta/core/truth/service.py:602-609 | Planning one record changes nothing for the others of its batch |
| Supersession.PlanAll | contexta/core/truth/service.py:576-609 | The incumbents any record may close are closed, and exactly the records with a remaining candidate are named |
| Insertion.NamedIsBlocked | contexta/core/pipeline.py:490-495 | A record is dropped exactly when it is blocked |
| Insertion.HeldIsUnblocked | contexta/core/truth/service.py:673-677 | While the index holds, a record whose slot is held under another type is not blocked |
| Insertion.HeldAfterPlan | contexta/core/pipeline.py:470-489 | After the plan an unblocked record's slot is held exactly by rows of another memory type |
| Insertion.InsertsExactly | contexta/core/pipeline.py:517-541 | The kept records enter one by one, the index holding after each, exactly when no kept slot is held under another memory type |
| Insertion.NoSlotVacated | contexta/core/truth/service.py:585-600 | Whatever slot was held before the plan is held after the inserts |
| Insertion.InsertAll | contexta/core/pipeline.py:519-541 | Inserting succeeds exactly when the index holds after every row, and is rolled back otherwise |
| Orchestrator.PairsAreBatch | contexta/core/pipeline.py:423-468 | The new records have distinct identifiers and distinct keys |
| Orchestrator.KeptAlike | contexta/core/pipeline.py:490-494 | Records and (identifier, memory) pairs are filtered alike, so the graph is built for exactly the rows kept |
| Orchestrator.DroppedOrKept | contexta/core/pipeline.py:490-501 | Every planned memory is dropped with an entry or kept, once |
| Orchestrator.DroppedCount | contexta/core/pipeline.py:495-501 | Each blocked record has one entry |
| Orchestrator.RunCounts | contexta/core/pipeline.py:356-501 | Merged counts the memories that repeat or are merged; discarded those that open their slot and are discarded, and the blocked records |
| Orchestrator.EntriesCover | contexta/core/pipeline.py:356-573 | The folded, dropped and stored entries together name every extracted memory once |
| Orchestrator.RunAccounts | contexta/core/pipeline.py:573-579 | Then extracted is stored plus merged plus discarded, and every counter matches its entries |
| Orchestrator.NoteDropped | contexta/core/pipeline.py:495-501 | One entry per blocked record |
| Orchestrator.NoteStored | contexta/core/pipeline.py:552-573 | One entry per stored record, and their number |
| Orchestrator.IngestedIsSound | contexta/core/pipeline.py:470-541 | The planned table satisfies the index and the primary key |
| Orchestrator.Store | contexta/core/pipeline.py:420-573 | Planning and inserting: refused exactly when some memory of the batch names a slot held by a current row of another type; the resulting table, the pairs for the graph and the entries |
| Orchestrator.Orchestrate | contexta/core/pipeline.py:319-579 | A run keeps the index; it is refused exactly when a memory left to store names a slot held by a current row of another type; otherwise the table is the planned one, the graph gets exactly the inserted rows, and extracted is stored plus merged plus discarded with one entry per memory, early exits included; the merged count is that of the memories that repeat or are merged, the discarded one that of those that open their slot and are discarded plus the blocked |
| Orchestrator.SlotsStayHeld | contexta/core/pipeline.py:470-541 | A run that is not refused leaves no slot empty that was held |
| Orchestrator.OtherTypeIsKept | contexta/core/truth/service.py:718-722 | On any table whose index holds and in any batch, a memory whose slot is held under another type is never blocked, whatever the engine decides, and so is kept to be inserted |
| Orchestrator.RefusalIsEngineFree | contexta/core/pipeline.py:470-541 | Some kept record meets a slot held under another type exactly when some memory left to store names one |
| PipelineKeys.TextKeysAlike | contexta/core/pipeline.py:581-585 | Two memories are folded as one text exactly when they have one type and the same folded words of title and content |
| PipelineKeys.StoredSlotsDiffer | contexta/core/pipeline.py:356-411 | With the pipeline's keys, no two memories left to store name their slots by the same folded words |
| PipelineKeys.RefusalIsBySlotWords | contexta/core/pipeline.py:470-541 | With the pipeline's keys, on a table whose keys are on the formula, a memory that names a slot refuses its run exactly when a current row of another type states the same folded words, and one that names none exactly when such a row holds its text hash |
| TokenBucket.McpRateLimiter.constructor | contexta/mcp/security.py:321-326 | A new limiter has empty tables |
| TokenBucket.McpRateLimiter.AllowLocal | contexta/mcp/security.py:377-389 | The decision and the new table are those of the local step, whose effect `RateAccounts.StepLeaves` and `RefusedIsFree` state |
| TokenBucket.McpRateLimiter.AllowRedis | contexta/mcp/security.py:350-372 | The decision and the new keys are those of the Redis step, whose effect `RateAccounts.StepLeaves` and `RefusedIsFree` state |
| TokenBucket.McpRateLimiter.Allow | contexta/mcp/security.py:344-375 | Uses one table only; a failing store allows the call and changes nothing |
| RateGuarantees.RunStaysInRange | contexta/mcp/security.py:377-389 | After every run with a non-decreasing clock and non-negative costs every bucket holds between nothing and the burst |
| TokenBucket.RunMirrors | contexta/mcp/security.py:350-389 | While a full bucket is reached before an entry is forgotten, a forgetful table decides every run as one that never forgets |
| TokenBucket.FullBucketsForgotten | contexta/mcp/security.py:350-389 | Within the bound, forgetting changes no decision of any run with a non-decreasing clock |
| TokenBucket.ForgettingIsExact | contexta/mcp/security.py:350-389 | Forgetting changes no decision of any run exactly when burst <= 300 * rate (local), burst <= 120 * rate (Redis) |
| TokenBucket.EvictionIsSeen | contexta/mcp/security.py:385-388 | Above that bound a run shows the local eviction |
| TokenBucket.ExpiryIsSeen | contexta/mcp/security.py:367-370 | Above that bound a run shows the Redis expiry |
| RateGuarantees.SpentBound | contexta/mcp/security.py:377-389 | What one identity is allowed by a table that never forgets is at most what it finds plus what accrues |
| RateGuarantees.SpendTakes | contexta/mcp/security.py:377-384 | A call takes exactly its cost when allowed, nothing when refused, and nothing from any other identity |
| RateAccounts.StepLeaves | contexta/mcp/security.py:350-389 | At every later time a call's identity finds what the call found, less its cost when allowed, plus what accrued since, up to the burst; in Redis the burst again after two minutes |
| RateAccounts.UnseenFindsBurst | contexta/mcp/security.py:355-357 | An identity that has not called finds the burst, whatever run the others made |
| RateAccounts.RedisClockBack | contexta/mcp/security.py:358-361 | A clock that went back adds nothing |
| RateAccounts.SweepKeeps | contexta/mcp/security.py:385-388 | The local table forgets an identity exactly when it holds more than 10000 and that one was last seen 300 seconds ago or more |
| RateAccounts.RefusedIsFree | contexta/mcp/security.py:362-366 | A refused call changes nothing that its identity will find later; in Redis while its keys would still live, or when burst <= 120 * rate |
| RateAccounts.FreeExactly | contexta/mcp/security.py:350-389 | After every run a refused call costs nothing: always in the local table, in Redis exactly when burst <= 120 * rate, because a refused call renews the keys |
| RateAccounts.OnlyAdmittedMatter | contexta/mcp/security.py:350-389 | The allowed calls of any run, made alone, are all allowed too, so clients that retry change nothing |
| RateGuarantees.WindowsExactly | contexta/mcp/security.py:350-389 | In every window of every run one identity is allowed at most the burst plus the rate times the window's length, exactly when burst <= 300 * rate (local) or burst <= 120 * rate (Redis), and always when nothing is forgotten |
| RateGuarantees.IsolationExactly | contexta/mcp/security.py:350-389 | After any run a call leaves what every other identity will find as it was: always in Redis, in the local table exactly when burst <= 300 * rate |
| RateGuarantees.DefaultsAreKept | contexta/mcp/security.py:321-326 | The default limits satisfy all of these bounds |
| EdgeUpsert.NeighboursAreVisible | contexta/repositories/entity_repo.py:487-511 | What is read is exactly the edges with fewer than twenty newer ones at the entity |
| EdgeUpsert.StepKeeps | contexta/mcp/service.py:460-491 | Every step makes no self-loop, loses no edge, and changes a relationship only from generic to specific |
| EdgeUpsert.StepRecords | contexta/mcp/service.py:474-491 | After an accepted step the pair has an edge, a specific one when the relation is specific |
| EdgeUpsert.MatchIsRead | contexta/mcp/service.py:463-472 | The search finds the pair's newest edge exactly when it is among the source's newest twenty |
| EdgeUpsert.StepWrites | contexta/mcp/service.py:460-491 | A pair whose newest edge is not read gets the relation's own edge, from its source to its target; one that is read and generic becomes that edge when the relation is specific; every other edge stays, in every other case the table does, and exactly an edge that exists is rejected |
| EdgeUpsert.StepKeepsOnePerPair | contexta/mcp/service.py:463-491 | A step keeps one edge per pair exactly when the pair's edge is not hidden from its source, and is rejected exactly when it is hidden and the very same edge exists |
| EdgeUpsert.RunKeeps | contexta/mcp/service.py:458-491 | Over any calls: no self-loop, no edge lost, no specific relationship ever changed |
| EdgeUpsert.StepStaysBroken | contexta/mcp/service.py:463-491 | No accepted step mends a table in which a pair has two edges |
| EdgeUpsert.CallKeepsOnePerPair | contexta/mcp/service.py:458-491 | From one edge per pair a call succeeds and keeps it exactly when none of its steps meets a pair hidden in the table it finds |
| EdgeUpsert.RunKeepsOnePerPair | contexta/mcp/service.py:458-491 | Over any calls one edge per pair is kept exactly when no call that succeeds has a step whose pair is hidden from its source |
| EdgeUpsert.DegreeBounded | contexta/mcp/service.py:463-472 | With one edge per pair an entity has at most one edge per other entity |
| EdgeUpsert.FewEntitiesHideNothing | contexta/repositories/entity_repo.py:487-511 | Among at most twenty-one entities no edge is hidden |
| EdgeUpsert.SmallGraphsKeepOnePerPair | contexta/mcp/service.py:458-491 | Among at most twenty-one entities every call succeeds and every run keeps one edge per pair |
| EdgeUpsert.HubIsReached | contexta/mcp/service.py:458-491 | Twenty-one calls on an empty table build a hub with an edge to each of twenty-one entities |
| EdgeUpsert.HubForgets | contexta/repositories/entity_repo.py:487-511 | From there a pair gets a second edge: its only one is not among the hub's twenty newest |
| EdgeUpsert.EdgeStore.Create | contexta/mcp/service.py:474-481 | Adds the edge exactly when the very same edge does not exist |
| EdgeUpsert.EdgeStore.Update | contexta/mcp/service.py:482-491 | Replaces the edge exactly when the very same edge does not exist |
| EdgeUpsert.EdgeStore.MatchedEdge | contexta/mcp/service.py:463-472 | The first edge between the two entities among those read |
| EdgeUpsert.EdgeStore.Remember | contexta/mcp/service.py:458-491 | The loop computes the run of its steps, each of which writes what `EdgeUpsert.StepWrites` states, or fails and leaves the edges as they were |
| ClaimMatching.Remove | benchmarks/extraction/contract.py:122-123 | Removing the first occurrence takes one away from the multiset |
| SlotFields.ClaimKeysAlike | benchmarks/extraction/contract.py:108-113 | Two claims have the same key exactly when their categories, their statuses and their objects each have the same folded words |
| ClaimMatching.MatchCount | benchmarks/extraction/contract.py:116-124 | The removal loop returns the size of the multiset intersection of the two lists of keys |
| ClaimMatching.Evaluate | benchmarks/extraction/contract.py:140-176 | The scores are those of that intersection |
| ClaimMatching.ScoresMean | benchmarks/extraction/contract.py:171-176 | `exact_set` holds exactly when the key multisets are equal; precision is one exactly when every prediction is called for, recall exactly when every reference is met, F1 exactly when the set is exact; all lie between 0 and 1 |
| ClaimMatching.F1IsHarmonic | benchmarks/extraction/contract.py:172-176 | F1 is the harmonic mean of precision and recall |

## Left out

- Regular expressions, their alternations and Unicode classes: what they match is a parameter, under the three predicates above. The weekday pattern at `contexta/core/temporal.py:1416-1419` is not a formatted string, so its time group never matches; the model has no such time.
- Time zones and daylight saving: one zone, wall-clock comparison, as Python compares datetimes that share a `tzinfo`. `_coerce_timezone`, `_coerce_datetime` and the message-context functions are not modelled.
- Floating-point rounding: amounts, tokens and scores are reals; the rounding of the benchmark's scores to four digits is not modelled.
- Real Unicode case folding and the text of numbers and containers: parameters.
- The digest's collisions: SHA-256 is a parameter, injective where a lemma requires it.
- `get_all` has no ORDER BY: pages are cut from one fixed order, as a table that does not change between reads gives in practice.
- Interleaved sessions: the backfill, the ingestion and the Redis calls run alone, Redis expiry uses the caller's clock, and its two keys per identity expire together.
- The errors `supersede_if_current` raises for an inverted validity window, and a row closed by another writer between the read and the close.
- Extraction, cortex, redaction, scoring, embedding, entity resolution, version and audit rows: not modelled. The run's early exit before extraction (`contexta/core/pipeline.py:304-317`) has no extracted memories to account for.
- The order in which blocked records are reported: the source iterates a set; the model takes the records' order.
- The deduplicator's updates of stored rows: they change no key and close no row.
- Negative rates and bursts: the rate limiter's theorems take both to be at least 0.
- Supersession.PlanOne: the row limit of 50 and the order of candidates are modelled but play no part, because a slot has at most one current row when the index holds.
- Relationship types that the edge table's check constraint rejects, and other tenants' edges.
- What PostgreSQL does after a rejected edge statement: the whole call is taken to fail and to leave the edges as they were.
- TokenBucket.McpRateLimiter.AllowRedis: does not model a token key that expired alone, which the source reads as a full bucket.
- The printing of reports, command-line handling and the enumeration of tenants.
- `field_match_rate` and the completeness, grounding and enum rates of `evaluate`: simple counts.
