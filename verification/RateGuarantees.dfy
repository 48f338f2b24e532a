/** What the rate limiter guarantees over whole runs: how much a window can cost,
    that identities do not touch one another, and that buckets stay in range. */
module RateGuarantees {
  import opened TokenBucket

  // ---- what a window can cost ----------------------------------------------

  /** The cost that the allowed calls of one identity add up to. */
  function Spent(calls: seq<Call>, decisions: seq<bool>, identity: string): real
    requires |calls| == |decisions|
  {
    if calls == [] then 0.0
    else (if calls[0].identity == identity && decisions[0] then calls[0].cost else 0.0)
         + Spent(calls[1..], decisions[1..], identity)
  }

  /** The tokens that accrue between two times. */
  function Accrued(l: Limits, from: real, to: real): real {
    l.rate * (to - from)
  }

  lemma AccruedSplits(l: Limits, a: real, b: real, c: real)
    requires Sane(l) && a <= b <= c
    ensures Accrued(l, a, c) == Accrued(l, a, b) + Accrued(l, b, c)
    ensures 0.0 <= Accrued(l, a, c)
  {
    ProductSign(l.rate, c - a);
  }

  lemma ProductSign(x: real, y: real)
    requires 0.0 <= x && 0.0 <= y
    ensures 0.0 <= x * y
  {
  }

  lemma RefilledBucket(b: Bucket, l: Limits, now: real, later: real)
    ensures b.tokens + (later - b.last) * l.rate == b.tokens + (now - b.last) * l.rate + Accrued(l, now, later)
  {
    ProductSplits(l.rate, now - b.last, later - now);
    assert now - b.last + (later - now) == later - b.last;
  }

  lemma ProductSplits(rate: real, x: real, y: real)
    ensures (x + y) * rate == x * rate + rate * y
  {
  }

  lemma CapBound(cap: real, low: real, high: real, more: real)
    requires high == low + more && 0.0 <= more
    ensures Min(cap, high) <= Min(cap, low) + more
  {
  }

  lemma RefillBound(l: Limits, t: Table, identity: string, now: real, later: real)
    requires Sane(l) && IsCurrent(t, now) && now <= later
    ensures Available(Reference, l, t, identity, later)
            <= Available(Reference, l, t, identity, now) + Accrued(l, now, later)
  {
    AccruedSplits(l, now, later, later);
    if identity in t {
      var b := t[identity];
      RefilledBucket(b, l, now, later);
      hide Accrued;
      CapBound(l.burst, b.tokens + (now - b.last) * l.rate, b.tokens + (later - b.last) * l.rate,
               Accrued(l, now, later));
    }
  }

  /** One call takes exactly its cost, when allowed, out of its own identity's bucket,
      nothing when refused, and leaves every other bucket as it was. Only a negative
      cost can be cut by the burst. */
  lemma SpendTakes(l: Limits, t: Table, c: Call, identity: string)
    requires Sane(l) && IsCurrent(t, c.now)
    ensures
      var before := Available(Reference, l, t, identity, c.now);
      var after := Available(Reference, l, Step(Reference, l, t, c), identity, c.now);
      after == Min(l.burst, before - if c.identity == identity && Allows(Reference, l, t, c) then c.cost else 0.0)
  {
    AvailableRange(Reference, l, t, c.identity, c.now);
  }

  lemma {:induction false} SpentBound(l: Limits, t: Table, calls: seq<Call>, identity: string, now: real, end: real)
    requires Sane(l) && IsCurrent(t, now) && IsMonotone(calls) && now <= end
    requires forall i :: 0 <= i < |calls| ==> now <= calls[i].now <= end
    ensures Spent(calls, Run(Reference, l, t, calls), identity)
            <= Available(Reference, l, t, identity, now) + Accrued(l, now, end)
    decreases |calls|
  {
    AvailableRange(Reference, l, t, identity, now);
    AccruedSplits(l, now, end, end);
    hide Available, Accrued;
    if calls != [] {
      var c, next := calls[0], Step(Reference, l, t, calls[0]);
      var d := Run(Reference, l, t, calls);
      assert d[0] == Allows(Reference, l, t, c) && d[1..] == Run(Reference, l, next, calls[1..]);
      assert forall i :: 0 <= i < |calls[1..]| ==> calls[1..][i] == calls[i + 1];
      StepKeepsRange(Reference, l, t, c);
      var taken := if c.identity == identity && d[0] then c.cost else 0.0;
      assert Spent(calls, d, identity) == taken + Spent(calls[1..], d[1..], identity);
      hide Allows, Step, Run, Spent, IsCurrent;
      SpentBound(l, next, calls[1..], identity, c.now, end);
      RefillBound(l, t, identity, now, c.now);
      SpendTakes(l, t, c, identity);
      AccruedSplits(l, now, c.now, end);
    }
  }

  lemma {:induction false} AfterIsCurrent(kind: Kind, l: Limits, t: Table, calls: seq<Call>, now: real, end: real)
    requires Sane(l) && IsCurrent(t, now) && IsMonotone(calls) && now <= end
    requires forall i :: 0 <= i < |calls| ==> now <= calls[i].now <= end
    ensures IsCurrent(After(kind, l, t, calls), end)
    decreases |calls|
  {
    if calls != [] {
      StepKeepsRange(kind, l, t, calls[0]);
      assert forall i :: 0 <= i < |calls[1..]| ==> calls[1..][i] == calls[i + 1];
      AfterIsCurrent(kind, l, Step(kind, l, t, calls[0]), calls[1..], calls[0].now, end);
    }
  }

  lemma RunMiddle(l: Limits, a: seq<Call>, b: seq<Call>, c: seq<Call>)
    ensures Run(Reference, l, map[], a + (b + c))[|a|..|a| + |b|] == Run(Reference, l, After(Reference, l, map[], a), b)
  {
    hide Run, After;
    var t := After(Reference, l, map[], a);
    RunAppend(Reference, l, map[], a, b + c);
    RunAppend(Reference, l, t, b, c);
    MiddleOf(Run(Reference, l, map[], a), Run(Reference, l, t, b), Run(Reference, l, After(Reference, l, t, b), c));
  }

  lemma InThree(calls: seq<Call>, i: nat, j: nat)
    requires i <= j <= |calls|
    ensures calls == calls[..i] + (calls[i..j] + calls[j..])
  {
  }

  lemma RunSlice(l: Limits, calls: seq<Call>, i: nat, j: nat)
    requires i <= j <= |calls|
    ensures Run(Reference, l, map[], calls)[i..j]
            == Run(Reference, l, After(Reference, l, map[], calls[..i]), calls[i..j])
  {
    hide Run, After;
    InThree(calls, i, j);
    RunMiddle(l, calls[..i], calls[i..j], calls[j..]);
  }

  lemma MiddleOf(a: seq<bool>, b: seq<bool>, c: seq<bool>)
    ensures (a + (b + c))[|a|..|a| + |b|] == b
  {
  }

  /** What one identity is allowed from the i-th call of a run to the j-th is at
      most the burst plus what accrues in between. */
  ghost predicate FitsWindow(kind: Kind, l: Limits, calls: seq<Call>, identity: string, i: nat, j: nat)
    requires i < j <= |calls|
  {
    Spent(calls[i..j], Run(kind, l, map[], calls)[i..j], identity)
    <= l.burst + Accrued(l, calls[i].now, calls[j - 1].now)
  }

  lemma WindowBound(kind: Kind, l: Limits, calls: seq<Call>, identity: string, i: nat, j: nat)
    requires Sane(l) && IsMonotone(calls) && i < j <= |calls|
    requires kind == Reference || l.burst <= Lifetime(kind) * l.rate
    ensures FitsWindow(kind, l, calls, identity, i, j)
  {
    if kind != Reference {
      FullBucketsForgotten(kind, l);
    }
    assert forall k :: 0 <= k < j - i ==> calls[i..j][k] == calls[i + k];
    assert forall k :: 0 <= k < i ==> calls[..i][k] == calls[k];
    hide Available, Run, After, Spent, Accrued;
    var t := After(Reference, l, map[], calls[..i]);
    AfterIsCurrent(Reference, l, map[], calls[..i], calls[0].now, calls[i].now);
    RunSlice(l, calls, i, j);
    SpentBound(l, t, calls[i..j], identity, calls[i].now, calls[j - 1].now);
    AvailableRange(Reference, l, t, identity, calls[i].now);
  }

  /** Every window of every run with a non-decreasing clock. */
  ghost predicate KeepsWindows(kind: Kind, l: Limits) {
    forall calls: seq<Call>, identity: string, i: nat, j: nat :: IsMonotone(calls) && i < j <= |calls| ==>
      FitsWindow(kind, l, calls, identity, i, j)
  }

  lemma {:induction false} SpentAppend(a: seq<Call>, b: seq<Call>, d: seq<bool>, e: seq<bool>, identity: string)
    requires |a| == |d| && |b| == |e|
    ensures Spent(a + b, d + e, identity) == Spent(a, d, identity) + Spent(b, e, identity)
  {
    if a == [] {
      assert a + b == b && d + e == e;
    } else {
      assert (a + b)[1..] == a[1..] + b && (d + e)[1..] == d[1..] + e;
      SpentAppend(a[1..], b, d[1..], e, identity);
    }
  }

  lemma {:induction false} SpentByOthers(calls: seq<Call>, d: seq<bool>, identity: string)
    requires |calls| == |d| && forall i :: 0 <= i < |calls| ==> calls[i].identity != identity
    ensures Spent(calls, d, identity) == 0.0
  {
    if calls != [] {
      SpentByOthers(calls[1..], d[1..], identity);
    }
  }

  /** A trace that starts and ends with an allowed spending of the burst, with
      only other identities in between, spends the burst twice. */
  lemma SpentTwice(l: Limits, first: Call, between: seq<Call>, last: Call, d: seq<bool>)
    requires first.identity == last.identity == "" && first.cost == last.cost == l.burst
    requires forall i :: 0 <= i < |between| ==> between[i].identity != ""
    requires |d| == |between| + 2 && d[0] && d[|d| - 1]
    ensures Spent([first] + (between + [last]), d, "") == l.burst + l.burst
  {
    var n := |between| + 1;
    assert d == [d[0]] + (d[1..n] + [d[n]]);
    SpentAppend([first], between + [last], [d[0]], d[1..n] + [d[n]], "");
    SpentAppend(between, [last], d[1..n], [d[n]], "");
    SpentByOthers(between, d[1..n], "");
    SpentOnce(first, true);
    SpentOnce(last, true);
  }

  lemma SpentOnce(c: Call, allowed: bool)
    ensures Spent([c], [allowed], c.identity) == if allowed then c.cost else 0.0
  {
    assert [c][1..] == [] && [allowed][1..] == [];
  }

  lemma WholeWindow(kind: Kind, l: Limits, calls: seq<Call>, life: real)
    requires 2 <= |calls| && IsMonotone(calls) && calls[0].now == 0.0 && calls[|calls| - 1].now == life
    requires l.burst > life * l.rate
    requires Spent(calls, Run(kind, l, map[], calls), "") == l.burst + l.burst
    ensures !KeepsWindows(kind, l)
  {
    hide Spent, Run;
    var n := |calls|;
    assert calls[0..n] == calls && Run(kind, l, map[], calls)[0..n] == Run(kind, l, map[], calls);
    assert Accrued(l, 0.0, life) == life * l.rate;
    assert !FitsWindow(kind, l, calls, "", 0, n);
  }

  lemma LocalSpendsTwice(l: Limits)
    requires Sane(l) && l.burst > IDLE_LOCAL * l.rate
    ensures !KeepsWindows(Local, l)
  {
    var calls, d := EvictionTrace(l), Run(Local, l, map[], EvictionTrace(l));
    var first, last := Call(0.0, "", l.burst), Call(IDLE_LOCAL, "", l.burst);
    assert calls[0] == first && calls[|calls| - 1] == last;
    assert d[0] == Allows(Local, l, map[], first);
    EvictionTraceEnd(Local, l);
    EvictionForgives(l);
    EvictionTraceMonotone(l);
    hide Allows, Run, Spent, CrowdTable, Evict, Crowd;
    assert |d| == MAX_LOCAL + 2;
    CrowdIsNamed();
    SpentTwice(l, first, Crowd(MAX_LOCAL, IDLE_LOCAL), last, d);
    WholeWindow(Local, l, calls, IDLE_LOCAL);
  }

  lemma CrowdIsNamed()
    ensures forall i :: 0 <= i < MAX_LOCAL ==> Crowd(MAX_LOCAL, IDLE_LOCAL)[i].identity != ""
  {
  }

  lemma RedisSpendsTwice(l: Limits)
    requires Sane(l) && l.burst > IDLE_REDIS * l.rate
    ensures !KeepsWindows(Redis, l)
  {
    var first, last := Call(0.0, "", l.burst), Call(IDLE_REDIS, "", l.burst);
    var calls := [first] + ([] + [last]);
    var d := Run(Redis, l, map[], calls);
    assert d[0] == Allows(Redis, l, map[], first);
    assert calls[1..] == [last];
    assert d[1..] == Run(Redis, l, Step(Redis, l, map[], first), [last]);
    assert d[1] == Allows(Redis, l, Step(Redis, l, map[], first), last);
    SpentTwice(l, first, [], last, d);
    WholeWindow(Redis, l, calls, IDLE_REDIS);
  }

  /** In every window of every run one identity is allowed at most the burst plus
      the rate times the window's length, exactly when a forgotten bucket is full
      again: burst <= 300 * rate for the local table, burst <= 120 * rate for
      Redis. A table that never forgets always keeps to it. */
  lemma WindowsExactly(kind: Kind, l: Limits)
    requires Sane(l)
    ensures KeepsWindows(kind, l) <==> kind == Reference || l.burst <= Lifetime(kind) * l.rate
  {
    hide FitsWindow;
    if kind == Reference || l.burst <= Lifetime(kind) * l.rate {
      forall calls: seq<Call>, identity: string, i: nat, j: nat | IsMonotone(calls) && i < j <= |calls|
        ensures FitsWindow(kind, l, calls, identity, i, j)
      {
        WindowBound(kind, l, calls, identity, i, j);
      }
    } else if kind == Local {
      LocalSpendsTwice(l);
    } else {
      RedisSpendsTwice(l);
    }
  }

  // ---- identities apart ----------------------------------------------------

  lemma OthersEntry(kind: Kind, l: Limits, t: Table, c: Call, other: string)
    requires other != c.identity
    ensures var next := Step(kind, l, t, c);
      && (other in next ==> other in t && next[other] == t[other])
      && (other in t && other !in next ==> kind == Local && c.now - t[other].last >= IDLE_LOCAL)
  {
    var spent := Spend(kind, l, t, c);
    assert other in spent <==> other in t;
    assert other in t ==> spent[other] == t[other];
    hide Spend;
  }

  lemma Isolation(kind: Kind, l: Limits, t: Table, c: Call, other: string, later: real)
    requires Sane(l) && IsCurrent(t, c.now) && other != c.identity && c.now <= later
    requires kind == Local ==> l.burst <= IDLE_LOCAL * l.rate
    ensures Available(kind, l, Step(kind, l, t, c), other, later) == Available(kind, l, t, other, later)
  {
    hide Step;
    OthersEntry(kind, l, t, c, other);
    if other in t && other !in Step(kind, l, t, c) {
      Refilled(t[other].tokens, later - t[other].last, l, IDLE_LOCAL);
    }
  }

  /** At the end of any run, a call by one identity leaves what any other will
      find, at any later time, as it was. */
  ghost predicate IsolatesIdentities(kind: Kind, l: Limits) {
    forall calls: seq<Call>, c: Call, other: string, later: real ::
      IsMonotone(calls + [c]) && other != c.identity && c.now <= later ==>
        LeavesAlone(kind, l, calls, c, other, later)
  }

  ghost predicate LeavesAlone(kind: Kind, l: Limits, calls: seq<Call>, c: Call, other: string, later: real) {
    var t := After(kind, l, map[], calls);
    Available(kind, l, Step(kind, l, t, c), other, later) == Available(kind, l, t, other, later)
  }

  lemma RunLeavesAlone(kind: Kind, l: Limits, calls: seq<Call>, c: Call, other: string, later: real)
    requires Sane(l) && IsMonotone(calls + [c]) && other != c.identity && c.now <= later
    requires kind == Local ==> l.burst <= IDLE_LOCAL * l.rate
    ensures LeavesAlone(kind, l, calls, c, other, later)
  {
    var all := calls + [c];
    assert forall i :: 0 <= i < |calls| ==> calls[i] == all[i];
    assert all[|calls|] == c;
    AfterIsCurrent(kind, l, map[], calls, if calls == [] then c.now else calls[0].now, c.now);
    Isolation(kind, l, After(kind, l, map[], calls), c, other, later);
  }

  /** The run that leaves the table one entry short of being swept. */
  function CrowdedTrace(l: Limits): seq<Call> {
    [Call(0.0, "", l.burst)] + Crowd(MAX_LOCAL - 1, IDLE_LOCAL)
  }

  lemma FirstSpends(l: Limits)
    requires Sane(l)
    ensures After(Local, l, map[], [Call(0.0, "", l.burst)]) == CrowdTable(l, 0)
  {
    var first := Call(0.0, "", l.burst);
    assert Spend(Local, l, map[], first) == CrowdTable(l, 0);
    hide Spend, CrowdTable;
    assert Step(Local, l, map[], first) == Evict(CrowdTable(l, 0), 0.0);
    CrowdTableHas(l, 0);
    assert After(Local, l, Step(Local, l, map[], first), []) == Step(Local, l, map[], first);
  }

  lemma CrowdedAfter(l: Limits)
    requires Sane(l)
    ensures After(Local, l, map[], CrowdedTrace(l)) == CrowdTable(l, MAX_LOCAL - 1)
  {
    CrowdTableHas(l, MAX_LOCAL - 1);
    hide After, Step, Spend, CrowdTable, Crowd;
    FirstSpends(l);
    RunAppend(Local, l, map[], [Call(0.0, "", l.burst)], Crowd(MAX_LOCAL - 1, IDLE_LOCAL));
    CrowdAfter(Local, l, MAX_LOCAL - 1);
  }

  lemma CrowdedMonotone(l: Limits)
    ensures IsMonotone(CrowdedTrace(l) + [Call(IDLE_LOCAL, Name(MAX_LOCAL), 0.0)])
  {
    var all := CrowdedTrace(l) + [Call(IDLE_LOCAL, Name(MAX_LOCAL), 0.0)];
    assert forall i :: 1 <= i < |all| ==> all[i].now == IDLE_LOCAL;
  }

  lemma SweepStep(l: Limits)
    requires Sane(l)
    ensures Step(Local, l, CrowdTable(l, MAX_LOCAL - 1), Call(IDLE_LOCAL, Name(MAX_LOCAL), 0.0))
            == Evict(CrowdTable(l, MAX_LOCAL), IDLE_LOCAL)
  {
    hide CrowdTable, Spend, Evict, Name;
    CrowdStep(Local, l, MAX_LOCAL);
  }

  lemma BeforeSweep(l: Limits)
    requires l.burst > IDLE_LOCAL * l.rate
    ensures Available(Local, l, CrowdTable(l, MAX_LOCAL - 1), "", IDLE_LOCAL) < l.burst
  {
    CrowdTableHas(l, MAX_LOCAL - 1);
    hide CrowdTable;
  }

  lemma AfterSweep(l: Limits)
    ensures Available(Local, l, Evict(CrowdTable(l, MAX_LOCAL), IDLE_LOCAL), "", IDLE_LOCAL) == l.burst
  {
    CrowdTableHas(l, MAX_LOCAL);
    hide CrowdTable;
  }

  lemma SweepReachesOthers(l: Limits)
    requires Sane(l) && l.burst > IDLE_LOCAL * l.rate
    ensures !IsolatesIdentities(Local, l)
  {
    var c := Call(IDLE_LOCAL, Name(MAX_LOCAL), 0.0);
    assert c.identity != "";
    hide CrowdTable, After, Spend, CrowdedTrace, Step, Available, Evict, IsMonotone, Name;
    CrowdedAfter(l);
    CrowdedMonotone(l);
    SweepStep(l);
    BeforeSweep(l);
    AfterSweep(l);
    assert !LeavesAlone(Local, l, CrowdedTrace(l), c, "", IDLE_LOCAL);
  }

  /** Identities never touch one another, except through the local sweep: there
      they do not exactly when burst <= 300 * rate. */
  lemma IsolationExactly(kind: Kind, l: Limits)
    requires Sane(l)
    ensures IsolatesIdentities(kind, l) <==> (kind == Local ==> l.burst <= IDLE_LOCAL * l.rate)
  {
    hide LeavesAlone;
    if kind == Local ==> l.burst <= IDLE_LOCAL * l.rate {
      forall calls: seq<Call>, c: Call, other: string, later: real |
        IsMonotone(calls + [c]) && other != c.identity && c.now <= later
        ensures LeavesAlone(kind, l, calls, c, other, later)
      {
        RunLeavesAlone(kind, l, calls, c, other, later);
      }
    } else {
      SweepReachesOthers(l);
    }
  }

  // ---- tokens over a run ---------------------------------------------------

  predicate AreInRange(l: Limits, t: Table) {
    forall k :: k in t ==> 0.0 <= t[k].tokens <= l.burst
  }

  lemma StepStaysInRange(kind: Kind, l: Limits, t: Table, c: Call)
    requires Sane(l) && IsCurrent(t, c.now) && AreInRange(l, t) && 0.0 <= c.cost
    ensures IsCurrent(Step(kind, l, t, c), c.now) && AreInRange(l, Step(kind, l, t, c))
  {
    StepKeepsRange(kind, l, t, c);
  }

  lemma {:induction false} AfterInRange(kind: Kind, l: Limits, t: Table, calls: seq<Call>, now: real)
    requires Sane(l) && IsCurrent(t, now) && AreInRange(l, t) && IsMonotone(calls)
    requires forall i :: 0 <= i < |calls| ==> now <= calls[i].now && 0.0 <= calls[i].cost
    ensures AreInRange(l, After(kind, l, t, calls))
    decreases |calls|
  {
    if calls != [] {
      hide AreInRange, Step;
      StepStaysInRange(kind, l, t, calls[0]);
      assert forall i :: 0 <= i < |calls[1..]| ==> calls[1..][i] == calls[i + 1];
      AfterInRange(kind, l, Step(kind, l, t, calls[0]), calls[1..], calls[0].now);
    }
  }

  /** After every run with a non-decreasing clock and non-negative costs every
      bucket holds between nothing and the burst. */
  lemma RunStaysInRange(kind: Kind, l: Limits, calls: seq<Call>)
    requires Sane(l) && IsMonotone(calls)
    requires forall i :: 0 <= i < |calls| ==> 0.0 <= calls[i].cost
    ensures AreInRange(l, After(kind, l, map[], calls))
  {
    AfterInRange(kind, l, map[], calls, if calls == [] then 0.0 else calls[0].now);
  }

  // ---- the default limits --------------------------------------------------

  /** The server's default of 20 a second with a burst of 40 has all of it, in the
      local table and in Redis. */
  lemma DefaultsAreKept(kind: Kind)
    ensures var l := Limits(20.0, 40.0);
      KeepsWindows(kind, l) && IsolatesIdentities(kind, l) && (kind != Reference ==> IsInvisible(kind, l))
  {
    var l := Limits(20.0, 40.0);
    WindowsExactly(kind, l);
    IsolationExactly(kind, l);
    if kind != Reference {
      ForgettingIsExact(kind, l);
    }
  }
}
