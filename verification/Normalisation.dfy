/** What holds of temporal normalisation as a whole. */
module Normalisation {
  import opened Attempts
  import opened Calendar
  import opened Moments
  import opened Text
  import opened Iso
  import opened Grammar
  import opened Branches
  import opened Resolvers

  // ---- printed dates read back ---------------------------------------------

  lemma ExactIsoDate(g: Grammar, d: Date)
    ensures ParseExact(g, IsoText(d)) == Some(OnDate(g, IsoText(d), d, Day, ExplicitDate))
  {
    IsoTextsAreTidy(IsoText(d));
    IsoRoundTrip(d);
  }

  lemma EndpointIsoDate(g: Grammar, d: Date, reference: Option<Moment>)
    requires g.Shrinks()
    ensures ParseEndpoint(g, IsoText(d), reference) == Done(Some(OnDate(g, IsoText(d), d, Day, ExplicitDate)))
  {
    hide Collapse, StripLead, ParseExact, IsIsoShape, ResolveMatch, ResolveAdditional, ResolveExtra;
    IsoTextsAreTidy(IsoText(d));
    ExactIsoDate(g, d);
  }

  lemma NoIntervalInIsoDate(g: Grammar, d: Date, reference: Option<Moment>)
    requires g.Shrinks() && g.LeavesIsoAlone()
    ensures ResolveInterval(g, IsoText(d), reference) == Done(None)
  {
    IsoTextsAreTidy(IsoText(d));
    assert g.LeavesAlone(IsoText(d));
  }

  /** The text printed for a single day resolves to that day, whatever the
      reference and whatever the rest of the grammar recognises. */
  lemma IsoDateResolves(g: Grammar, d: Date, reference: Option<Moment>)
    requires g.Shrinks() && g.LeavesIsoAlone()
    ensures ResolveExtra(g, IsoText(d), reference) == Done(Some(OnDate(g, IsoText(d), d, Day, ExplicitDate)))
  {
    IsoTextsAreTidy(IsoText(d));
    assert g.LeavesAlone(IsoText(d));
    ExactIsoDate(g, d);
    NoIntervalInIsoDate(g, d, reference);
  }

  lemma SidesResolve(g: Grammar, s: string, d: Date, e: Date, reference: Option<Moment>)
    requires g.Shrinks() && |s| == 29
    requires NotAfter(d, e)
    ensures ResolveSides(g, s, IsoText(d), IsoText(e), reference) == Done(Some(OnDates(g, s, d, e, Day, ExplicitDate)))
  {
    hide ParseEndpoint, BoundsText, Joined, IsoText, IsIsoShape;
    EndpointIsoDate(g, d, reference);
    EndpointIsoDate(g, e, reference);
    assert AtOrBefore(Midnight(d), Midnight(e));
  }

  lemma IntervalResolves(g: Grammar, d: Date, e: Date, reference: Option<Moment>)
    requires g.Shrinks() && g.LeavesIsoAlone()
    requires NotAfter(d, e)
    ensures ResolveInterval(g, IsoInterval(d, e), reference)
            == Done(Some(OnDates(g, IsoInterval(d, e), d, e, Day, ExplicitDate)))
  {
    var s := IsoInterval(d, e);
    IsoTextsAreTidy(s);
    assert g.LeavesAlone(s);
    assert Interval(g, s) == Some((IsoText(d), IsoText(e)));
    hide Collapse, IsIsoShape, IsIsoInterval, Interval, ResolveSides, BoundsText, IsoText, IsoInterval;
    SidesResolve(g, s, d, e, reference);
  }

  lemma ExtendedReadsIsoInterval(g: Grammar, d: Date, e: Date, ref: Moment)
    requires g.Shrinks() && g.LeavesIsoAlone()
    requires NotAfter(d, e)
    ensures ResolveExtendedInterval(g, IsoInterval(d, e), ref)
            == Done(Some(OnDates(g, IsoInterval(d, e), d, e, Day, ExplicitDate)))
  {
    hide ResolveInterval, ExtendedEndpoint, BoundsText, IsoInterval, IsIsoShape, IsIsoInterval, Joined, WeekdayAfter;
    IntervalResolves(g, d, e, Some(ref));
  }

  lemma IsoIntervalIsPlain(g: Grammar, d: Date, e: Date)
    requires g.LeavesIsoAlone()
    ensures g.LeavesAlone(IsoInterval(d, e)) && AdditionalText(IsoInterval(d, e)) == IsoInterval(d, e)
  {
    IsoTextsAreTidy(IsoInterval(d, e));
    hide IsoInterval, IsSpace, CollapseRuns, Strip;
  }

  lemma AdditionalReadsIsoInterval(g: Grammar, d: Date, e: Date, ref: Moment)
    requires g.Shrinks() && g.LeavesIsoAlone()
    requires NotAfter(d, e)
    ensures ResolveAdditional(g, IsoInterval(d, e), ref, true)
            == Done(Some(OnDates(g, IsoInterval(d, e), d, e, Day, ExplicitDate)))
  {
    hide ResolveExtendedInterval, ExtendedEndpoint, AdditionalText, BoundsText, ResolveShape, ExtendedIntervalMatch,
         IsoInterval, IsIsoShape, IsIsoInterval, UntilMatch;
    IsoIntervalIsPlain(g, d, e);
    ExtendedReadsIsoInterval(g, d, e, ref);
  }

  lemma ExactIgnoresInterval(g: Grammar, d: Date, e: Date)
    requires g.LeavesIsoAlone()
    ensures ParseExact(g, IsoInterval(d, e)) == None
  {
    var s := IsoInterval(d, e);
    IsoTextsAreTidy(s);
    assert g.LeavesAlone(s);
  }

  lemma WithoutReference(g: Grammar, c: string, m: TemporalMatch)
    requires g.Shrinks() && Collapse(c) == c && !g.weekBeforeNextMonth(c)
    requires ResolveInterval(g, c, None) == Done(Some(m))
    ensures ResolveExtra(g, c, None) == Done(Some(m))
  {
    hide Collapse, ParseExact, ResolveInterval, ResolveAdditional, ExtraMatch;
  }

  lemma WithReference(g: Grammar, c: string, ref: Moment, m: TemporalMatch)
    requires g.Shrinks() && Collapse(c) == c && !g.weekBeforeNextMonth(c) && ParseExact(g, c) == None
    requires ResolveAdditional(g, c, ref, true) == Done(Some(m))
    ensures ResolveExtra(g, c, Some(ref)) == Done(Some(m))
  {
    hide Collapse, ParseExact, ResolveInterval, ResolveAdditional, ExtraMatch;
  }

  /** The text printed for an interval of days resolves to that interval. */
  lemma IsoIntervalResolves(g: Grammar, d: Date, e: Date, reference: Option<Moment>)
    requires g.Shrinks() && g.LeavesIsoAlone()
    requires NotAfter(d, e)
    ensures ResolveExtra(g, IsoInterval(d, e), reference)
            == Done(Some(OnDates(g, IsoInterval(d, e), d, e, Day, ExplicitDate)))
  {
    hide Collapse, ParseExact, ResolveExtra, ResolveInterval, ResolveAdditional, BoundsText, IsoInterval, IsIsoInterval,
         IsIsoShape, Strip, CollapseRuns;
    IsoTextsAreTidy(IsoInterval(d, e));
    IsoIntervalIsPlain(g, d, e);
    var m := OnDates(g, IsoInterval(d, e), d, e, Day, ExplicitDate);
    if reference.None? {
      IntervalResolves(g, d, e, None);
      WithoutReference(g, IsoInterval(d, e), m);
    } else {
      ExactIgnoresInterval(g, d, e);
      AdditionalReadsIsoInterval(g, d, e, reference.value);
      WithReference(g, IsoInterval(d, e), reference.value, m);
    }
  }

  // ---- normalising twice ---------------------------------------------------

  /** Bounds that are printed as whole dates. */
  predicate IsDayAligned(m: TemporalMatch) {
    && m.start.Some? && IsDateGranularity(m.precision)
    && m.start.value.micros == 0
    && (m.end.Some? ==> m.end.value.micros == 0)
  }

  /** Normalising is idempotent: the text written for a day-aligned match, from
      any expression and reference, resolves under any other reference, or
      none, to the same start and end, and is written the same way again. */
  lemma NormalisedTextIsStable(g: Grammar, text: string, reference: Option<Moment>, later: Option<Moment>)
    requires g.Shrinks() && g.Subsumes() && g.LeavesIsoAlone()
    requires Normalize(g, text, reference).Done? && IsDayAligned(Normalize(g, text, reference).value)
    ensures
      var m := Normalize(g, text, reference).value;
      && Normalize(g, m.normalized, later).Done?
      && var again := Normalize(g, m.normalized, later).value;
         again.start == m.start && again.end == m.end && again.normalized == m.normalized
  {
    hide ResolveExtra, ResolveMatch, ResolveWithoutReference, IsIsoShape, IsIsoInterval;
    var m := Normalize(g, text, reference).value;
    var d := m.start.value.date;
    if m.end.None? {
      assert m.normalized == IsoText(d);
      IsoDateNormalizes(g, d, later);
    } else {
      var e := m.end.value.date;
      assert m.normalized == IsoInterval(d, e);
      assert NotAfter(d, e);
      IsoIntervalNormalizes(g, d, e, later);
    }
  }

  lemma IsoDateNormalizes(g: Grammar, d: Date, reference: Option<Moment>)
    requires g.Shrinks() && g.LeavesIsoAlone()
    ensures Normalize(g, IsoText(d), reference) == Done(OnDate(g, IsoText(d), d, Day, ExplicitDate))
  {
    hide ResolveExtra, ResolveMatch, IsoText, BoundsText;
    IsoDateResolves(g, d, reference);
  }

  lemma IsoIntervalNormalizes(g: Grammar, d: Date, e: Date, reference: Option<Moment>)
    requires g.Shrinks() && g.LeavesIsoAlone()
    requires NotAfter(d, e)
    ensures Normalize(g, IsoInterval(d, e), reference) == Done(OnDates(g, IsoInterval(d, e), d, e, Day, ExplicitDate))
  {
    hide ResolveExtra, ResolveMatch, IsoInterval, BoundsText;
    IsoIntervalResolves(g, d, e, reference);
  }

  // ---- the counted spans ---------------------------------------------------

  /** A grammar that recognises nothing but the counted span "past 0 days". */
  function OnlyPastZeroDays(): Grammar {
    Grammar(
      _ => "", _ => None, _ => None, _ => None, _ => None, _ => None, _ => None, _ => None, _ => None, _ => None,
      _ => Some(ExtraSpan(Past, false, 0, Day)),
      _ => None, _ => None, _ => None, _ => false, _ => None, _ => None, _ => None, _ => None, _ => None,
      _ => false, _ => None)
  }

  /** The order of intervals does rest on the prefixed spans being tried first:
      were they not to recognise a counted span, a count of 0 would come out
      inverted. */
  lemma {:induction false} CountedSpansNeedSubsumption(ref: Moment)
    requires AddDays(ref.date, 1).Done?
    ensures exists g: Grammar ::
      g.Shrinks() && !g.Subsumes() && !Ordered(ResolveExtra(g, "", Some(ref)))
  {
    var g := OnlyPastZeroDays();
    var shrinks := g.Shrinks();
    assert g.extra("").Some? && !g.ReadsDirected(AdditionalText(""));
    hide ResolveExtra, ExtraMatch, AdditionalText;
    OnlyTheCountedSpan(ref);
    PastZeroDaysIsInverted(ref);
  }

  lemma NoAdditionalReading(ref: Moment)
    ensures ResolveAdditional(OnlyPastZeroDays(), "", ref, true) == Done(None)
    ensures ResolveInterval(OnlyPastZeroDays(), "", Some(ref)) == Done(None)
  {
  }

  lemma OnlyTheCountedSpan(ref: Moment)
    ensures ResolveExtra(OnlyPastZeroDays(), "", Some(ref))
            == ExtraMatch(OnlyPastZeroDays(), "", ExtraSpan(Past, false, 0, Day), ref)
  {
    hide ResolveAdditional, ResolveInterval, ExtraMatch;
    NoAdditionalReading(ref);
  }

  lemma PastZeroDaysIsInverted(ref: Moment)
    requires AddDays(ref.date, 1).Done?
    ensures !Ordered(ExtraMatch(OnlyPastZeroDays(), "", ExtraSpan(Past, false, 0, Day), ref))
  {
    hide Ordinal, FromOrdinal, BoundsText;
    ExtraSpanOrder(ref.date, Past, false, 0, Day);
  }
}
