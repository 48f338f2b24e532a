/** Choosing the expressions of a text and rewriting them in place. */
module Spans {
  /** One regular-expression hit: its extent, its text and its pattern's priority. */
  datatype Candidate = Candidate(start: int, end: int, expression: string, priority: int)

  /** Hits are non-empty, in bounds, and carry the text they cover. */
  predicate AreHits(text: string, cs: seq<Candidate>) {
    forall i :: 0 <= i < |cs| ==>
      && 0 <= cs[i].start < cs[i].end <= |text|
      && cs[i].expression == text[cs[i].start..cs[i].end]
  }

  // ---- sorting -------------------------------------------------------------

  /** The sort key (start, -length, priority). */
  predicate KeyLeq(a: Candidate, b: Candidate) {
    || a.start < b.start
    || (a.start == b.start && a.end > b.end)
    || (a.start == b.start && a.end == b.end && a.priority <= b.priority)
  }

  function Insert(c: Candidate, cs: seq<Candidate>): seq<Candidate> {
    if cs == [] || KeyLeq(c, cs[0]) then [c] + cs else [cs[0]] + Insert(c, cs[1..])
  }

  /** `candidates.sort(key=...)`, stable. */
  function Sort(cs: seq<Candidate>): seq<Candidate> {
    if cs == [] then [] else Insert(cs[0], Sort(cs[1..]))
  }

  predicate IsSorted(cs: seq<Candidate>) {
    forall i, j :: 0 <= i < j < |cs| ==> KeyLeq(cs[i], cs[j])
  }

  lemma {:induction false} InsertSorted(c: Candidate, cs: seq<Candidate>)
    requires IsSorted(cs)
    ensures IsSorted(Insert(c, cs))
    ensures multiset(Insert(c, cs)) == multiset(cs) + multiset{c}
  {
    if cs != [] && !KeyLeq(c, cs[0]) {
      InsertSorted(c, cs[1..]);
      assert cs == [cs[0]] + cs[1..];
      var rest := Insert(c, cs[1..]);
      forall j | 0 <= j < |rest|
        ensures KeyLeq(cs[0], rest[j])
      {
        assert rest[j] in multiset(rest);
        assert rest[j] == c || rest[j] in cs[1..];
      }
    }
  }

  lemma {:induction false} SortSorted(cs: seq<Candidate>)
    ensures IsSorted(Sort(cs)) && multiset(Sort(cs)) == multiset(cs)
  {
    if cs != [] {
      SortSorted(cs[1..]);
      InsertSorted(cs[0], Sort(cs[1..]));
      assert cs == [cs[0]] + cs[1..];
    }
  }

  lemma SortKeepsHits(text: string, cs: seq<Candidate>)
    requires AreHits(text, cs)
    ensures AreHits(text, Sort(cs))
  {
    SortSorted(cs);
    forall i | 0 <= i < |Sort(cs)|
      ensures Sort(cs)[i] in cs
    {
      assert Sort(cs)[i] in multiset(Sort(cs));
    }
  }

  // ---- selection -----------------------------------------------------------

  /** The left-to-right sweep over sorted hits. */
  function Sweep(cs: seq<Candidate>, cursor: int): seq<Candidate> {
    if cs == [] then []
    else if cs[0].start < cursor then Sweep(cs[1..], cursor)
    else [cs[0]] + Sweep(cs[1..], cs[0].end)
  }

  function Selection(cs: seq<Candidate>): seq<Candidate> {
    Sweep(Sort(cs), -1)
  }

  lemma {:induction false} SweepAppend(cs: seq<Candidate>, c: Candidate, cursor: int)
    ensures
      var end := if Sweep(cs, cursor) == [] then cursor else Sweep(cs, cursor)[|Sweep(cs, cursor)| - 1].end;
      Sweep(cs + [c], cursor) == Sweep(cs, cursor) + if c.start < end then [] else [c]
  {
    if cs == [] {
      assert cs + [c] == [c];
    } else {
      assert (cs + [c])[1..] == cs[1..] + [c];
      SweepAppend(cs[1..], c, if cs[0].start < cursor then cursor else cs[0].end);
    }
  }

  /** `_iter_expression_spans` after its pattern searches. */
  method SelectSpans(candidates: seq<Candidate>) returns (selected: seq<Candidate>)
    ensures selected == Selection(candidates)
  {
    var sorted := Sort(candidates);
    selected := [];
    var cursor := -1;
    for i := 0 to |sorted|
      invariant selected == Sweep(sorted[..i], -1)
      invariant cursor == if selected == [] then -1 else selected[|selected| - 1].end
    {
      assert sorted[..i + 1] == sorted[..i] + [sorted[i]];
      SweepAppend(sorted[..i], sorted[i], -1);
      if sorted[i].start < cursor {
        continue;
      }
      selected := selected + [sorted[i]];
      cursor := sorted[i].end;
    }
    assert sorted[..|sorted|] == sorted;
  }

  /** `a` starts no later than `b` does, `b` starts inside it, and where the two
      start together `a` is the longer, or as long and of better priority. */
  predicate Claims(a: Candidate, b: Candidate) {
    a.start <= b.start < a.end && (a.start == b.start ==> KeyLeq(a, b))
  }

  predicate IsClaimed(b: Candidate, sel: seq<Candidate>) {
    exists i :: 0 <= i < |sel| && Claims(sel[i], b)
  }

  predicate InTurn(sel: seq<Candidate>) {
    forall i, j :: 0 <= i < j < |sel| ==> sel[i].end <= sel[j].start
  }

  /** A leftmost-longest selection: hits in order and disjoint, such that every
      hit, taken or not, is claimed by one of them. */
  ghost predicate LeftmostLongest(cs: seq<Candidate>, sel: seq<Candidate>) {
    && (forall i :: 0 <= i < |sel| ==> sel[i] in cs)
    && InTurn(sel)
    && (forall c :: c in cs ==> IsClaimed(c, sel))
  }

  lemma {:induction false} SweepInTurn(text: string, cs: seq<Candidate>, cursor: int)
    requires AreHits(text, cs)
    ensures InTurn(Sweep(cs, cursor))
    ensures forall i :: 0 <= i < |Sweep(cs, cursor)| ==>
      Sweep(cs, cursor)[i].start >= cursor && Sweep(cs, cursor)[i] in cs
  {
    if cs != [] {
      SweepInTurn(text, cs[1..], if cs[0].start < cursor then cursor else cs[0].end);
    }
  }

  lemma {:induction false} SweepClaims(text: string, cs: seq<Candidate>, cursor: int, c: Candidate)
    requires AreHits(text, cs) && IsSorted(cs)
    requires c in cs && c.start >= cursor
    ensures IsClaimed(c, Sweep(cs, cursor))
  {
    var sel := Sweep(cs, cursor);
    if cs[0].start < cursor {
      SweepClaims(text, cs[1..], cursor, c);
    } else if c.start < cs[0].end {
      assert Claims(sel[0], c);
    } else {
      SweepClaims(text, cs[1..], cs[0].end, c);
      var i :| 0 <= i < |Sweep(cs[1..], cs[0].end)| && Claims(Sweep(cs[1..], cs[0].end)[i], c);
      assert Claims(sel[i + 1], c);
    }
  }

  /** What `_iter_expression_spans` selects is leftmost-longest. */
  lemma SelectionIsLeftmostLongest(text: string, cs: seq<Candidate>)
    requires AreHits(text, cs)
    ensures LeftmostLongest(cs, Selection(cs))
  {
    var sorted := Sort(cs);
    SortSorted(cs);
    SortKeepsHits(text, cs);
    SweepInTurn(text, sorted, -1);
    forall i | 0 <= i < |Selection(cs)|
      ensures Selection(cs)[i] in cs
    {
      assert Selection(cs)[i] in multiset(sorted);
    }
    forall c | c in cs
      ensures IsClaimed(c, Selection(cs))
    {
      assert c in multiset(sorted);
      assert c.start >= -1;
      SweepClaims(text, sorted, -1, c);
    }
  }

  predicate AreNonEmpty(cs: seq<Candidate>) {
    forall i :: 0 <= i < |cs| ==> cs[i].start < cs[i].end
  }

  predicate AgreeTo(s: seq<Candidate>, t: seq<Candidate>, k: nat) {
    k <= |s| && k <= |t| && forall i :: 0 <= i < k ==> s[i] == t[i]
  }

  /** The claimant of the next span of one selection sits at the same place of
      any other selection that agrees with it so far. */
  lemma NextClaimant(s: seq<Candidate>, t: seq<Candidate>, k: nat)
    requires InTurn(s) && InTurn(t) && AreNonEmpty(s) && AreNonEmpty(t)
    requires AgreeTo(s, t, k) && k < |s|
    requires IsClaimed(s[k], t)
    ensures k < |t| && t[k].start <= s[k].start
    ensures t[k].start == s[k].start ==> KeyLeq(t[k], s[k])
  {
    hide KeyLeq;
    var i :| 0 <= i < |t| && Claims(t[i], s[k]);
    assert i >= k;
    assert i > k ==> t[k].end <= t[i].start;
  }

  lemma HitsByKey(text: string, cs: seq<Candidate>, a: Candidate, b: Candidate)
    requires AreHits(text, cs) && a in cs && b in cs
    requires KeyLeq(a, b) && KeyLeq(b, a)
    ensures a == b
  {
  }

  lemma SelectionNonEmpty(text: string, cs: seq<Candidate>, sel: seq<Candidate>)
    requires AreHits(text, cs) && LeftmostLongest(cs, sel)
    ensures AreNonEmpty(sel)
  {
    forall i | 0 <= i < |sel|
      ensures sel[i].start < sel[i].end
    {
      assert sel[i] in cs;
    }
  }

  lemma AgreeOnNext(text: string, cs: seq<Candidate>, s: seq<Candidate>, t: seq<Candidate>, k: nat)
    requires AreHits(text, cs)
    requires LeftmostLongest(cs, s) && LeftmostLongest(cs, t)
    requires AgreeTo(s, t, k) && k < |s|
    ensures AgreeTo(s, t, k + 1)
  {
    hide KeyLeq, InTurn, IsClaimed;
    SelectionNonEmpty(text, cs, s);
    SelectionNonEmpty(text, cs, t);
    assert s[k] in cs;
    NextClaimant(s, t, k);
    assert t[k] in cs;
    NextClaimant(t, s, k);
    HitsByKey(text, cs, s[k], t[k]);
  }

  lemma {:induction false} SelectionsAgree(
      text: string, cs: seq<Candidate>, s: seq<Candidate>, t: seq<Candidate>, k: nat)
    requires AreHits(text, cs)
    requires LeftmostLongest(cs, s) && LeftmostLongest(cs, t)
    requires AgreeTo(s, t, k)
    ensures s == t
    decreases |s| - k
  {
    hide LeftmostLongest, AreHits;
    if k < |s| {
      AgreeOnNext(text, cs, s, t, k);
      SelectionsAgree(text, cs, s, t, k + 1);
    } else if k < |t| {
      AgreeOnNext(text, cs, t, s, k);
    }
  }

  /** And it is the only leftmost-longest selection. */
  lemma SelectionIsUnique(text: string, cs: seq<Candidate>, sel: seq<Candidate>)
    requires AreHits(text, cs)
    ensures LeftmostLongest(cs, sel) <==> sel == Selection(cs)
  {
    SelectionIsLeftmostLongest(text, cs);
    if LeftmostLongest(cs, sel) {
      SelectionsAgree(text, cs, sel, Selection(cs), 0);
    }
  }
}
