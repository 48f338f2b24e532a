/** `normalize_temporal_text`: each selected expression is replaced by its
    normalised form, and everything else is left alone. */
module Rewriting {
  import opened Attempts
  import opened Moments
  import opened Grammar
  import opened Resolvers
  import opened Spans

  // ---- splicing ------------------------------------------------------------

  /** Spans that follow one another from a cursor on, inside the text. */
  predicate FitFrom(text: string, spans: seq<Candidate>, cursor: int) {
    && 0 <= cursor <= |text|
    && (spans != [] ==>
          && cursor <= spans[0].start <= spans[0].end <= |text|
          && FitFrom(text, spans[1..], spans[0].end))
  }

  /** The text from the cursor on, with each span replaced. */
  function Splice(text: string, spans: seq<Candidate>, with: seq<string>, cursor: int): string
    requires FitFrom(text, spans, cursor) && |with| == |spans|
  {
    if spans == [] then text[cursor..]
    else text[cursor..spans[0].start] + with[0] + Splice(text, spans[1..], with[1..], spans[0].end)
  }

  function Slices(text: string, spans: seq<Candidate>): seq<string>
    requires forall i :: 0 <= i < |spans| ==> 0 <= spans[i].start <= spans[i].end <= |text|
  {
    seq(|spans|, i requires 0 <= i < |spans| => text[spans[i].start..spans[i].end])
  }

  lemma {:induction false} FitBounds(text: string, spans: seq<Candidate>, cursor: int)
    requires FitFrom(text, spans, cursor)
    ensures forall i :: 0 <= i < |spans| ==> cursor <= spans[i].start <= spans[i].end <= |text|
  {
    if spans != [] {
      FitBounds(text, spans[1..], spans[0].end);
    }
  }

  predicate AreSlices(text: string, spans: seq<Candidate>, slices: seq<string>) {
    && |slices| == |spans|
    && forall i :: 0 <= i < |spans| ==>
         0 <= spans[i].start <= spans[i].end <= |text| && slices[i] == text[spans[i].start..spans[i].end]
  }

  lemma TextInThree(text: string, a: nat, b: nat, c: nat)
    requires a <= b <= c <= |text|
    ensures text[a..] == text[a..b] + text[b..c] + text[c..]
  {
  }

  /** Putting each original slice back at its recorded source span rebuilds the text. */
  lemma {:induction false} SliceBackIsIdentity(text: string, spans: seq<Candidate>, slices: seq<string>, cursor: int)
    requires FitFrom(text, spans, cursor) && AreSlices(text, spans, slices)
    ensures Splice(text, spans, slices, cursor) == text[cursor..]
  {
    if spans != [] {
      SliceBackIsIdentity(text, spans[1..], slices[1..], spans[0].end);
      TextInThree(text, cursor, spans[0].start, spans[0].end);
    }
  }

  /** Where the replacements land in the rewritten text. */
  function Landed(spans: seq<Candidate>, with: seq<string>, cursor: int, base: int): seq<Candidate>
    requires |with| == |spans|
  {
    if spans == [] then []
    else
      var start := base + spans[0].start - cursor;
      var end := start + |with[0]|;
      [Candidate(start, end, with[0], spans[0].priority)] + Landed(spans[1..], with[1..], spans[0].end, end)
  }

  lemma {:induction false} LandedLength(spans: seq<Candidate>, with: seq<string>, cursor: int, base: int)
    requires |with| == |spans|
    ensures |Landed(spans, with, cursor, base)| == |spans|
  {
    if spans != [] {
      LandedLength(spans[1..], with[1..], spans[0].end, base + spans[0].start - cursor + |with[0]|);
    }
  }

  lemma CutThree(out: string, base: nat, gap: string, piece: string, rest: string)
    requires base <= |out| && out[base..] == gap + piece + rest
    ensures base + |gap| + |piece| <= |out|
    ensures out[base..base + |gap|] == gap
    ensures out[base + |gap|..base + |gap| + |piece|] == piece
    ensures out[base + |gap| + |piece|..] == rest
  {
    var tail := out[base..];
    assert out[base..base + |gap|] == tail[..|gap|];
    assert out[base + |gap|..base + |gap| + |piece|] == tail[|gap|..|gap| + |piece|];
    assert out[base + |gap| + |piece|..] == tail[|gap| + |piece|..];
  }

  lemma LandedFirst(spans: seq<Candidate>, with: seq<string>, cursor: int, base: int)
    requires |with| == |spans| && spans != []
    ensures
      var start := base + spans[0].start - cursor;
      var end := start + |with[0]|;
      Landed(spans, with, cursor, base)
      == [Candidate(start, end, with[0], spans[0].priority)] + Landed(spans[1..], with[1..], spans[0].end, end)
  {
  }

  lemma FitTail(text: string, spans: seq<Candidate>, cursor: int)
    requires FitFrom(text, spans, cursor) && spans != []
    ensures 0 <= cursor <= spans[0].start <= spans[0].end <= |text| && FitFrom(text, spans[1..], spans[0].end)
  {
  }

  lemma FitFirst(out: string, first: Candidate, tail: seq<Candidate>, base: int)
    requires 0 <= base <= first.start <= first.end <= |out| && FitFrom(out, tail, first.end)
    ensures FitFrom(out, [first] + tail, base)
  {
    assert ([first] + tail)[1..] == tail;
  }

  /** Each stands at its place in the text. */
  predicate StandIn(out: string, spans: seq<Candidate>) {
    forall i :: 0 <= i < |spans| ==>
      0 <= spans[i].start <= spans[i].end <= |out| && out[spans[i].start..spans[i].end] == spans[i].expression
  }

  lemma StandFirst(out: string, first: Candidate, tail: seq<Candidate>)
    requires StandIn(out, tail)
    requires 0 <= first.start <= first.end <= |out| && out[first.start..first.end] == first.expression
    ensures StandIn(out, [first] + tail)
  {
  }

  /** The first replacement stands after the same gap, and the rest follows. */
  lemma LandsFirst(text: string, spans: seq<Candidate>, with: seq<string>, cursor: int, out: string, base: int)
      returns (first: Candidate, tail: seq<Candidate>)
    requires FitFrom(text, spans, cursor) && |with| == |spans| && spans != []
    requires 0 <= base <= |out| && out[base..] == Splice(text, spans, with, cursor)
    ensures Landed(spans, with, cursor, base) == [first] + tail
    ensures tail == Landed(spans[1..], with[1..], spans[0].end, first.end)
    ensures base <= first.start <= first.end <= |out| && cursor <= spans[0].start <= spans[0].end <= |text|
    ensures FitFrom(text, spans[1..], spans[0].end)
    ensures out[base..first.start] == text[cursor..spans[0].start]
    ensures out[first.start..first.end] == first.expression
    ensures out[first.end..] == Splice(text, spans[1..], with[1..], spans[0].end)
  {
    FitTail(text, spans, cursor);
    var gap, rest := text[cursor..spans[0].start], Splice(text, spans[1..], with[1..], spans[0].end);
    hide Splice, Landed, FitFrom;
    SpliceFirst(text, spans, with, cursor);
    CutThree(out, base, gap, with[0], rest);
    LandedFirst(spans, with, cursor, base);
    first := Candidate(base + |gap|, base + |gap| + |with[0]|, with[0], spans[0].priority);
    tail := Landed(spans[1..], with[1..], spans[0].end, first.end);
  }

  /** The replacements fit the rewritten text, each standing where it landed. */
  lemma {:induction false} LandedFit(
      text: string, spans: seq<Candidate>, with: seq<string>, cursor: int, out: string, base: int)
    requires FitFrom(text, spans, cursor) && |with| == |spans|
    requires 0 <= base <= |out| && out[base..] == Splice(text, spans, with, cursor)
    ensures FitFrom(out, Landed(spans, with, cursor, base), base)
    ensures StandIn(out, Landed(spans, with, cursor, base))
  {
    if spans == [] {
      LandedNone(with, cursor, base);
    } else {
      hide Splice, Landed, FitFrom, StandIn;
      var first, tail := LandsFirst(text, spans, with, cursor, out, base);
      LandedFit(text, spans[1..], with[1..], spans[0].end, out, first.end);
      FitFirst(out, first, tail, base);
      StandFirst(out, first, tail);
    }
  }

  lemma SpliceFirst(text: string, spans: seq<Candidate>, with: seq<string>, cursor: int)
    requires FitFrom(text, spans, cursor) && |with| == |spans| && spans != []
    ensures Splice(text, spans, with, cursor)
            == text[cursor..spans[0].start] + with[0] + Splice(text, spans[1..], with[1..], spans[0].end)
  {
  }

  lemma LandedNone(with: seq<string>, cursor: int, base: int)
    requires with == []
    ensures Landed([], with, cursor, base) == []
  {
  }

  lemma SlicesTail(text: string, spans: seq<Candidate>, slices: seq<string>)
    requires AreSlices(text, spans, slices) && spans != []
    ensures |slices| == |spans| && AreSlices(text, spans[1..], slices[1..])
    ensures 0 <= spans[0].start <= spans[0].end <= |text| && slices[0] == text[spans[0].start..spans[0].end]
  {
  }

  /** What landed first, and what landed after it. */
  lemma LandedTail(text: string, spans: seq<Candidate>, with: seq<string>, cursor: int, out: string, base: int)
      returns (first: Candidate, tail: seq<Candidate>)
    requires FitFrom(text, spans, cursor) && |with| == |spans| && spans != []
    requires 0 <= base <= |out| && out[base..] == Splice(text, spans, with, cursor)
    requires FitFrom(out, Landed(spans, with, cursor, base), base)
    requires |Landed(spans, with, cursor, base)| == |spans|
    ensures Landed(spans, with, cursor, base) == [first] + tail
    ensures tail == Landed(spans[1..], with[1..], spans[0].end, first.end) && |tail| == |spans[1..]|
    ensures base <= first.start <= first.end <= |out| && cursor <= spans[0].start <= |text|
    ensures out[base..first.start] == text[cursor..spans[0].start]
    ensures out[first.end..] == Splice(text, spans[1..], with[1..], spans[0].end)
    ensures FitFrom(out, tail, first.end)
  {
    hide Splice, Landed, FitFrom;
    first, tail := LandsFirst(text, spans, with, cursor, out, base);
    TailFits(out, first, tail, base);
  }

  lemma TailFits(out: string, first: Candidate, tail: seq<Candidate>, base: int)
    requires FitFrom(out, [first] + tail, base)
    ensures FitFrom(out, tail, first.end)
  {
    assert ([first] + tail)[1..] == tail;
  }

  lemma UndoFirst(out: string, first: Candidate, tail: seq<Candidate>, slices: seq<string>, base: int)
    requires FitFrom(out, [first] + tail, base) && |slices| == |tail| + 1
    ensures 0 <= base <= first.start <= first.end <= |out| && FitFrom(out, tail, first.end)
    ensures Splice(out, [first] + tail, slices, base)
            == out[base..first.start] + slices[0] + Splice(out, tail, slices[1..], first.end)
  {
    assert ([first] + tail)[1..] == tail;
  }

  /** The rewrite is undone by replacing what landed with what was there: so
      nothing outside the spans was altered, and nothing was lost. */
  lemma {:induction false} SpliceIsUndone(
      text: string, spans: seq<Candidate>, with: seq<string>, slices: seq<string>, cursor: int, out: string, base: int)
    requires FitFrom(text, spans, cursor) && |with| == |spans| && AreSlices(text, spans, slices)
    requires 0 <= base <= |out| && out[base..] == Splice(text, spans, with, cursor)
    requires FitFrom(out, Landed(spans, with, cursor, base), base)
    requires |Landed(spans, with, cursor, base)| == |spans|
    ensures Splice(out, Landed(spans, with, cursor, base), slices, base) == text[cursor..]
  {
    if spans == [] {
      assert slices == [] && with == [];
      assert Landed(spans, with, cursor, base) == [];
    } else {
      hide Splice, Landed, FitFrom, AreSlices;
      FitTail(text, spans, cursor);
      SlicesTail(text, spans, slices);
      var first, tail := LandedTail(text, spans, with, cursor, out, base);
      SpliceIsUndone(text, spans[1..], with[1..], slices[1..], spans[0].end, out, first.end);
      UndoFirst(out, first, tail, slices, base);
      TextInThree(text, cursor, spans[0].start, spans[0].end);
    }
  }

  // ---- the selected spans fit ----------------------------------------------

  lemma {:induction false} InTurnFits(text: string, spans: seq<Candidate>, cursor: int)
    requires InTurn(spans) && AreHits(text, spans)
    requires 0 <= cursor <= |text| && (spans != [] ==> cursor <= spans[0].start)
    ensures FitFrom(text, spans, cursor)
  {
    if spans != [] {
      InTurnFits(text, spans[1..], spans[0].end);
    }
  }

  lemma SelectionFits(text: string, cs: seq<Candidate>)
    requires AreHits(text, cs)
    ensures AreHits(text, Selection(cs)) && FitFrom(text, Selection(cs), 0)
  {
    SelectionIsLeftmostLongest(text, cs);
    var spans := Selection(cs);
    forall i | 0 <= i < |spans|
      ensures 0 <= spans[i].start < spans[i].end <= |text| && spans[i].expression == text[spans[i].start..spans[i].end]
    {
      assert spans[i] in cs;
    }
    InTurnFits(text, spans, 0);
  }

  // ---- records -------------------------------------------------------------

  /** A `TemporalMatch` as the rewriter holds it: the match and its place in
      the source. */
  class TemporalRecord {
    const found: TemporalMatch
    var sourceStart: Option<int>
    var sourceEnd: Option<int>
    var sourceSpan: Option<(int, int)>

    constructor (found: TemporalMatch)
      ensures this.found == found
      ensures sourceStart == None && sourceEnd == None && sourceSpan == None
    {
      this.found := found;
      sourceStart, sourceEnd, sourceSpan := None, None, None;
    }

    /** `_attach_source_span`. */
    method AttachSourceSpan(start: Option<int>, end: Option<int>)
      modifies this
      ensures sourceStart == if start.Some? then start else old(sourceStart)
      ensures sourceEnd == if end.Some? then end else old(sourceEnd)
      ensures sourceSpan == if start.Some? && end.Some? then Some((start.value, end.value)) else old(sourceSpan)
    {
      if start.Some? {
        sourceStart := start;
      }
      if end.Some? {
        sourceEnd := end;
      }
      if start.Some? && end.Some? {
        sourceSpan := Some((start.value, end.value));
      }
    }
  }

  /** `TemporalText`, whose bounds are those of the first match that has a start. */
  datatype TemporalText = TemporalText(
    original: string,
    normalized: string,
    start: Option<Moment>,
    end: Option<Moment>,
    precision: Precision,
    basis: Basis)

  /** `"".join(pieces)`. */
  function Concat(pieces: seq<string>): string {
    if pieces == [] then "" else Concat(pieces[..|pieces| - 1]) + pieces[|pieces| - 1]
  }

  function Unmatched(text: string, normalized: string, reference: Option<Moment>): TemporalText {
    TemporalText(text, normalized, None, None, Unknown, if reference.None? then NoReference else UnknownExpression)
  }

  /** The summary fields of the text's result. */
  function Summary(text: string, normalized: string, ms: seq<TemporalMatch>, reference: Option<Moment>): TemporalText {
    if ms == [] then Unmatched(text, normalized, reference)
    else if ms[0].start.Some? then
      TemporalText(text, normalized, ms[0].start, ms[0].end, ms[0].precision, ms[0].basis)
    else Summary(text, normalized, ms[1..], reference)
  }

  /** The text's bounds, precision and basis are those of the first match that starts;
      if none does there are no bounds, and the basis says whether there was a
      reference. */
  predicate Summarises(t: TemporalText, ms: seq<TemporalMatch>, reference: Option<Moment>) {
    if forall i :: 0 <= i < |ms| ==> ms[i].start.None? then
      && t.start.None? && t.end.None? && t.precision == Unknown
      && t.basis == if reference.None? then NoReference else UnknownExpression
    else
      exists i :: 0 <= i < |ms| && ms[i].start.Some? && (forall j :: 0 <= j < i ==> ms[j].start.None?)
                  && t.start == ms[i].start && t.end == ms[i].end
                  && t.precision == ms[i].precision && t.basis == ms[i].basis
  }

  lemma {:induction false} SummaryIsFirst(text: string, normalized: string, ms: seq<TemporalMatch>,
                                          reference: Option<Moment>)
    ensures
      var t := Summary(text, normalized, ms, reference);
      Summarises(t, ms, reference) && t.original == text && t.normalized == normalized
    decreases |ms|
  {
    if ms != [] && ms[0].start.None? {
      var t, rest := Summary(text, normalized, ms, reference), ms[1..];
      SummaryIsFirst(text, normalized, rest, reference);
      assert forall i :: 0 <= i < |rest| ==> rest[i] == ms[i + 1];
      if j :| 0 <= j < |rest| && rest[j].start.Some? && (forall k :: 0 <= k < j ==> rest[k].start.None?)
              && t.start == rest[j].start && t.end == rest[j].end && t.precision == rest[j].precision
              && t.basis == rest[j].basis {
        assert ms[j + 1] == rest[j];
        assert forall k :: 1 <= k < j + 1 ==> ms[k] == rest[k - 1];
      }
    }
  }

  /** How an expression is resolved under the text's one reference. */
  type Resolver = string -> Attempt<TemporalMatch>

  predicate AllResolve(resolve: Resolver, spans: seq<Candidate>) {
    forall i :: 0 <= i < |spans| ==> resolve(spans[i].expression).Done?
  }

  /** The matches of the spans, one per span. */
  function Readings(resolve: Resolver, spans: seq<Candidate>): (ms: seq<TemporalMatch>)
    requires AllResolve(resolve, spans)
    ensures |ms| == |spans|
    ensures forall i :: 0 <= i < |spans| ==> resolve(spans[i].expression) == Done(ms[i])
  {
    seq(|spans|, i requires 0 <= i < |spans| && AllResolve(resolve, spans) => resolve(spans[i].expression).value)
  }

  function Texts(ms: seq<TemporalMatch>): (ts: seq<string>)
    ensures |ts| == |ms|
    ensures forall i :: 0 <= i < |ms| ==> ts[i] == ms[i].normalized
  {
    seq(|ms|, i requires 0 <= i < |ms| => ms[i].normalized)
  }

  /** The text with every selected expression replaced. */
  function Rewritten(text: string, cs: seq<Candidate>, with: seq<string>): string
    requires AreHits(text, cs) && |with| == |Selection(cs)|
  {
    SelectionFits(text, cs);
    Splice(text, Selection(cs), with, 0)
  }

  // ---- the loop ------------------------------------------------------------

  lemma SpliceNext(text: string, spans: seq<Candidate>, with: seq<string>, i: nat, cursor: int)
    requires |with| == |spans| && i < |spans| && FitFrom(text, spans[i..], cursor)
    ensures 0 <= cursor <= spans[i].start <= spans[i].end <= |text|
    ensures FitFrom(text, spans[i + 1..], spans[i].end)
    ensures Splice(text, spans[i..], with[i..], cursor)
            == text[cursor..spans[i].start] + with[i] + Splice(text, spans[i + 1..], with[i + 1..], spans[i].end)
  {
    assert spans[i..][1..] == spans[i + 1..] && with[i..][1..] == with[i + 1..];
  }

  lemma SpliceEnd(text: string, spans: seq<Candidate>, with: seq<string>, cursor: int)
    requires |with| == |spans| && FitFrom(text, spans[|spans|..], cursor)
    ensures 0 <= cursor <= |text|
    ensures Splice(text, spans[|spans|..], with[|spans|..], cursor) == text[cursor..]
  {
  }

  lemma ConcatOne(pieces: seq<string>, a: string)
    ensures Concat(pieces + [a]) == Concat(pieces) + a
  {
    assert (pieces + [a])[..|pieces|] == pieces;
  }

  /** One turn of the loop: two more pieces, one span less to splice. */
  lemma TurnKeepsText(text: string, spans: seq<Candidate>, with: seq<string>, i: nat, cursor: int, pieces: seq<string>)
    requires |with| == |spans| && i < |spans| && FitFrom(text, spans[i..], cursor)
    ensures 0 <= cursor <= spans[i].start <= spans[i].end <= |text|
    ensures FitFrom(text, spans[i + 1..], spans[i].end)
    ensures
      var more := pieces + [text[cursor..spans[i].start]] + [with[i]];
      Concat(more) + Splice(text, spans[i + 1..], with[i + 1..], spans[i].end)
      == Concat(pieces) + Splice(text, spans[i..], with[i..], cursor)
  {
    hide Concat, Splice, FitFrom;
    SpliceNext(text, spans, with, i, cursor);
    var gap, rest := text[cursor..spans[i].start], Splice(text, spans[i + 1..], with[i + 1..], spans[i].end);
    ConcatOne(pieces, gap);
    ConcatOne(pieces + [gap], with[i]);
    assert Concat(pieces) + gap + with[i] + rest == Concat(pieces) + (gap + with[i] + rest);
  }

  /** The normalised text of each span, or nothing where its resolution raises. */
  ghost function Replacements(resolve: Resolver, spans: seq<Candidate>): (ts: seq<string>)
    ensures |ts| == |spans|
    ensures forall i :: 0 <= i < |spans| && resolve(spans[i].expression).Done? ==>
      ts[i] == resolve(spans[i].expression).value.normalized
  {
    seq(|spans|, i requires 0 <= i < |spans| =>
      var r := resolve(spans[i].expression);
      if r.Done? then r.value.normalized else "")
  }

  /** The first spans resolve to these matches. */
  predicate AreFound(resolve: Resolver, spans: seq<Candidate>, found: seq<TemporalMatch>) {
    |found| <= |spans| && forall j :: 0 <= j < |found| ==> resolve(spans[j].expression) == Done(found[j])
  }

  lemma FoundNext(resolve: Resolver, spans: seq<Candidate>, found: seq<TemporalMatch>)
    requires AreFound(resolve, spans, found) && |found| < |spans|
    ensures var r := resolve(spans[|found|].expression);
      if r.Raised? then !AllResolve(resolve, spans)
      else AreFound(resolve, spans, found + [r.value]) && r.value.normalized == Replacements(resolve, spans)[|found|]
  {
  }

  lemma ReadingsFound(resolve: Resolver, spans: seq<Candidate>, found: seq<TemporalMatch>)
    requires AreFound(resolve, spans, found) && |found| == |spans|
    ensures AllResolve(resolve, spans) && found == Readings(resolve, spans)
    ensures Replacements(resolve, spans) == Texts(found)
  {
  }

  /** What a record says once its span is attached. */
  ghost predicate Records(record: TemporalRecord, m: TemporalMatch, span: Candidate)
    reads record
  {
    && record.found == m
    && record.sourceStart == Some(span.start)
    && record.sourceEnd == Some(span.end)
    && record.sourceSpan == Some((span.start, span.end))
  }

  ghost predicate AreRecords(records: seq<TemporalRecord>, found: seq<TemporalMatch>, spans: seq<Candidate>)
    reads records
  {
    |records| == |found| <= |spans| && forall j :: 0 <= j < |records| ==> Records(records[j], found[j], spans[j])
  }

  lemma RecordsNext(records: seq<TemporalRecord>, found: seq<TemporalMatch>, spans: seq<Candidate>,
                    record: TemporalRecord, m: TemporalMatch)
    requires AreRecords(records, found, spans) && |found| < |spans| && Records(record, m, spans[|found|])
    ensures AreRecords(records + [record], found + [m], spans)
  {
  }

  method MakeRecord(m: TemporalMatch, span: Candidate) returns (record: TemporalRecord)
    ensures fresh(record) && Records(record, m, span)
  {
    record := new TemporalRecord(m);
    record.AttachSourceSpan(Some(span.start), Some(span.end));
  }

  /** The loop of `normalize_temporal_text` over the selected spans. It raises
      exactly when resolving one of their expressions raises; otherwise the text
      is rewritten span by span and each match records where it came from. */
  method RewriteSpans(resolve: Resolver, text: string, spans: seq<Candidate>)
      returns (r: Attempt<string>, found: seq<TemporalMatch>, matches: seq<TemporalRecord>)
    requires FitFrom(text, spans, 0)
    ensures r.Done? <==> AllResolve(resolve, spans)
    ensures r.Done? ==> found == Readings(resolve, spans) && r.value == Splice(text, spans, Texts(found), 0)
    ensures r.Done? ==> |matches| == |spans| && AreRecords(matches, found, spans)
  {
    ghost var with := Replacements(resolve, spans);
    matches, found := [], [];
    var pieces: seq<string> := [];
    var cursor := 0;
    assert spans[0..] == spans && with[0..] == with && Concat(pieces) == "";
    assert AreFound(resolve, spans, found) && AreRecords(matches, found, spans);
    hide FitFrom, Splice, Concat, Replacements, Readings, Texts, AreFound, AreRecords, Records, AllResolve;
    for i := 0 to |spans|
      invariant FitFrom(text, spans[i..], cursor)
      invariant Concat(pieces) + Splice(text, spans[i..], with[i..], cursor) == Splice(text, spans, with, 0)
      invariant |found| == |matches| == i
      invariant AreFound(resolve, spans, found) && AreRecords(matches, found, spans)
    {
      FoundNext(resolve, spans, found);
      var resolved := resolve(spans[i].expression);
      if resolved.Raised? {
        r := Raised;
        return;
      }
      var record := MakeRecord(resolved.value, spans[i]);
      RecordsNext(matches, found, spans, record, resolved.value);
      TurnKeepsText(text, spans, with, i, cursor, pieces);
      pieces := pieces + [text[cursor..spans[i].start]] + [resolved.value.normalized];
      cursor := spans[i].end;
      found := found + [resolved.value];
      matches := matches + [record];
    }
    SpliceEnd(text, spans, with, cursor);
    ConcatOne(pieces, text[cursor..]);
    pieces := pieces + [text[cursor..]];
    ReadingsFound(resolve, spans, found);
    r := Done(Concat(pieces));
  }

  // ---- what the rewrite means ----------------------------------------------

  /** Replacing what landed in the rewritten text by the original slices gives
      the original text back, whatever the replacements were. */
  lemma RewriteIsUndone(text: string, cs: seq<Candidate>, with: seq<string>)
    requires AreHits(text, cs) && |with| == |Selection(cs)|
    ensures
      var spans := Selection(cs);
      var out, landed := Rewritten(text, cs, with), Landed(spans, with, 0, 0);
      && FitFrom(out, landed, 0) && |landed| == |spans|
      && (forall i :: 0 <= i < |spans| ==> 0 <= spans[i].start <= spans[i].end <= |text|)
      && Splice(out, landed, Slices(text, spans), 0) == text
  {
    var spans := Selection(cs);
    SelectionFits(text, cs);
    FitBounds(text, spans, 0);
    var out := Rewritten(text, cs, with);
    assert out[0..] == out;
    LandedLength(spans, with, 0, 0);
    LandedFit(text, spans, with, 0, out, 0);
    SpliceIsUndone(text, spans, with, Slices(text, spans), 0, out, 0);
    assert text[0..] == text;
  }

  /** `normalize_temporal_text`'s resolution of one expression. */
  function ResolverOf(g: Grammar, reference: Option<Moment>): Resolver
    requires g.Shrinks()
  {
    (expression: string) requires g.Shrinks() => Normalize(g, expression, reference)
  }

  /** `normalize_temporal_text`. */
  method NormalizeText(g: Grammar, text: string, candidates: seq<Candidate>, reference: Option<Moment>)
      returns (r: Attempt<TemporalText>, matches: seq<TemporalRecord>)
    requires g.Shrinks() && AreHits(text, candidates)
    ensures r.Done? <==> AllResolve(ResolverOf(g, reference), Selection(candidates))
    ensures r.Done? ==>
      var ms := Readings(ResolverOf(g, reference), Selection(candidates));
      && r.value.original == text && r.value.normalized == Rewritten(text, candidates, Texts(ms))
      && Summarises(r.value, ms, reference)
      && |matches| == |ms|
      && AreRecords(matches, ms, Selection(candidates))
  {
    var spans := SelectSpans(candidates);
    SelectionFits(text, candidates);
    var rewritten, found;
    rewritten, found, matches := RewriteSpans(ResolverOf(g, reference), text, spans);
    r := if rewritten.Raised? then Raised else Done(Summary(text, rewritten.value, found, reference));
    if r.Done? {
      SummaryIsFirst(text, rewritten.value, found, reference);
    }
  }

  /** Without a reference, a text none of whose expressions resolves on its own
      is returned as it was: no date is invented for a relative expression. */
  lemma NothingInvented(g: Grammar, text: string, cs: seq<Candidate>)
    requires g.Shrinks() && AreHits(text, cs) && AllResolve(ResolverOf(g, None), Selection(cs))
    requires forall i :: 0 <= i < |Selection(cs)| ==> Readings(ResolverOf(g, None), Selection(cs))[i].start.None?
    ensures Rewritten(text, cs, Texts(Readings(ResolverOf(g, None), Selection(cs)))) == text
  {
    var spans := Selection(cs);
    SelectionFits(text, cs);
    SliceBackIsIdentity(text, spans, Texts(Readings(ResolverOf(g, None), spans)), 0);
    assert text[0..] == text;
  }
}
