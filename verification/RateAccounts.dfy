/** What a call finds in its bucket: the burst at first, then exactly what the calls
    before it left and what has accrued since; and refused calls cost nothing. */
module RateAccounts {
  import opened TokenBucket
  import opened RateGuarantees

  // ---- what one call leaves ------------------------------------------------

  lemma Products(rate: real, x: real, y: real)
    ensures (x + y) * rate == x * rate + y * rate
  {
  }

  lemma CappedTwice(cap: real, low: real, more: real)
    requires 0.0 <= more
    ensures Min(cap, Min(cap, low) + more) == Min(cap, low + more)
  {
  }

  lemma OwnEntry(kind: Kind, l: Limits, t: Table, c: Call)
    ensures
      var found := Available(kind, l, t, c.identity, c.now);
      var next := Step(kind, l, t, c);
      && c.identity in next
      && next[c.identity] == Bucket(c.now, found - if found >= c.cost then c.cost else 0.0)
  {
    hide Available;
  }

  /** A call leaves what it found less its cost, or all of it when refused, and from
      then on tokens accrue at the rate up to the burst; in Redis while its keys
      live, and then there is the whole burst again. */
  lemma StepLeaves(kind: Kind, l: Limits, t: Table, c: Call, later: real)
    requires c.now <= later
    ensures
      var found := Available(kind, l, t, c.identity, c.now);
      var left := found - if Allows(kind, l, t, c) then c.cost else 0.0;
      Available(kind, l, Step(kind, l, t, c), c.identity, later)
      == if kind == Redis && c.now + 120.0 <= later then l.burst
         else Min(l.burst, left + (later - c.now) * l.rate)
  {
    OwnEntry(kind, l, t, c);
    hide Step;
  }

  lemma ElapsedSplits(rate: real, last: real, now: real, later: real)
    ensures (later - last) * rate == (now - last) * rate + (later - now) * rate
  {
    Products(rate, now - last, later - now);
    assert now - last + (later - now) == later - last;
  }

  lemma GrowsOn(cap: real, tokens: real, rate: real, last: real, now: real, later: real)
    requires 0.0 <= rate && now <= later
    ensures Min(cap, tokens + (later - last) * rate)
            == Min(cap, Min(cap, tokens + (now - last) * rate) + (later - now) * rate)
  {
    hide Min;
    ProductSign(rate, later - now);
    ElapsedSplits(rate, last, now, later);
    CappedTwice(cap, tokens + (now - last) * rate, (later - now) * rate);
  }

  lemma FullStays(cap: real, rate: real, now: real, later: real)
    requires 0.0 <= rate && now <= later
    ensures cap == Min(cap, cap + (later - now) * rate)
  {
    ProductSign(rate, later - now);
  }

  lemma Accrual(l: Limits, t: Table, identity: string, now: real, later: real)
    requires Sane(l) && IsCurrent(t, now) && now <= later
    ensures Available(Reference, l, t, identity, later)
            == Min(l.burst, Available(Reference, l, t, identity, now) + (later - now) * l.rate)
  {
    if identity in t {
      hide Min, IsCurrent;
      GrowsOn(l.burst, t[identity].tokens, l.rate, t[identity].last, now, later);
    } else {
      FullStays(l.burst, l.rate, now, later);
    }
  }

  /** An identity that has not called finds the burst. */
  lemma {:induction false} UnseenFindsBurst(kind: Kind, l: Limits, t: Table, calls: seq<Call>, identity: string,
                                            now: real)
    requires identity !in t && forall i :: 0 <= i < |calls| ==> calls[i].identity != identity
    ensures Available(kind, l, After(kind, l, t, calls), identity, now) == l.burst
    decreases |calls|
  {
    if calls != [] {
      OthersEntry(kind, l, t, calls[0], identity);
      hide Step, Available;
      UnseenFindsBurst(kind, l, Step(kind, l, t, calls[0]), calls[1..], identity, now);
    }
  }

  /** The local table forgets an identity exactly when it holds more than ten thousand
      and that one was last seen five minutes ago or more. */
  lemma SweepKeeps(t: Table, now: real, k: string)
    ensures k in Evict(t, now) <==> k in t && (|t| <= 10_000 || now - t[k].last < 300.0)
    ensures k in Evict(t, now) ==> Evict(t, now)[k] == t[k]
  {
  }

  /** A clock that went back adds nothing to a Redis bucket. */
  lemma RedisClockBack(l: Limits, t: Table, identity: string, now: real)
    requires identity in t && now <= t[identity].last
    ensures Available(Redis, l, t, identity, now) == Min(l.burst, t[identity].tokens)
  {
  }

  // ---- refused calls -------------------------------------------------------

  lemma AliveAsReference(kind: Kind, l: Limits, t: Table, identity: string, now: real)
    requires Sane(l) && IsCurrent(t, now)
    requires kind == Redis ==> identity !in t || now < t[identity].last + 120.0
    ensures Available(kind, l, t, identity, now) == Available(Reference, l, t, identity, now)
  {
  }

  lemma ExpiredIsFull(l: Limits, t: Table, identity: string, now: real)
    requires identity in t && t[identity].last + 120.0 <= now
    ensures Available(Redis, l, t, identity, now) == l.burst
  {
  }

  lemma LateIsFull(l: Limits, t: Table, identity: string, now: real, later: real)
    requires Sane(l) && l.burst <= 120.0 * l.rate
    requires IsCurrent(t, now) && now <= later && identity in t && t[identity].last + 120.0 <= later
    ensures Available(Reference, l, t, identity, later) == l.burst
  {
    Refilled(t[identity].tokens, later - t[identity].last, l, 120.0);
  }

  /** A refused call costs nothing: whatever is found later is what would have been
      found without it. In Redis a refused call also renews the keys, so there it
      takes keys that would still live, or that expire full. */
  lemma RefusedIsFree(kind: Kind, l: Limits, t: Table, c: Call, later: real)
    requires Sane(l) && IsCurrent(t, c.now) && c.now <= later && !Allows(kind, l, t, c)
    requires kind == Redis && c.identity in t ==> l.burst <= 120.0 * l.rate || later < t[c.identity].last + 120.0
    ensures Available(kind, l, Step(kind, l, t, c), c.identity, later) == Available(kind, l, t, c.identity, later)
  {
    hide Step, Available;
    StepLeaves(kind, l, t, c, later);
    ProductSign(l.rate, later - c.now);
    if kind == Redis && c.identity in t && t[c.identity].last + 120.0 <= c.now {
      ExpiredIsFull(l, t, c.identity, c.now);
      ExpiredIsFull(l, t, c.identity, later);
    } else {
      AliveAsReference(kind, l, t, c.identity, c.now);
      Accrual(l, t, c.identity, c.now, later);
      if kind == Redis && c.identity in t && t[c.identity].last + 120.0 <= later {
        ExpiredIsFull(l, t, c.identity, later);
        LateIsFull(l, t, c.identity, c.now, later);
      } else {
        assert IsCurrent(t, later);
        AliveAsReference(kind, l, t, c.identity, later);
        if kind == Redis && c.now + 120.0 <= later {
          NotInTable(l, t, c.identity, later);
        }
      }
    }
  }

  lemma NotInTable(l: Limits, t: Table, identity: string, now: real)
    requires identity !in t
    ensures Available(Redis, l, t, identity, now) == l.burst
  {
  }

  /** At the end of any run, a call that is refused leaves what its identity will find,
      at any later time, as it was. */
  ghost predicate RefusesForFree(kind: Kind, l: Limits) {
    forall calls: seq<Call>, c: Call, later: real ::
      IsMonotone(calls + [c]) && c.now <= later && !Allows(kind, l, After(kind, l, map[], calls), c) ==>
        IsForgotten(kind, l, calls, c, later)
  }

  ghost predicate IsForgotten(kind: Kind, l: Limits, calls: seq<Call>, c: Call, later: real) {
    var t := After(kind, l, map[], calls);
    Available(kind, l, Step(kind, l, t, c), c.identity, later) == Available(kind, l, t, c.identity, later)
  }

  lemma RunRefusesForFree(kind: Kind, l: Limits, calls: seq<Call>, c: Call, later: real)
    requires Sane(l) && (kind == Redis ==> l.burst <= 120.0 * l.rate)
    requires IsMonotone(calls + [c]) && c.now <= later && !Allows(kind, l, After(kind, l, map[], calls), c)
    ensures IsForgotten(kind, l, calls, c, later)
  {
    hide Available, Step, Allows, After;
    var all := calls + [c];
    assert forall i :: 0 <= i < |calls| ==> calls[i] == all[i];
    assert all[|calls|] == c;
    AfterIsCurrent(kind, l, map[], calls, if calls == [] then c.now else calls[0].now, c.now);
    RefusedIsFree(kind, l, After(kind, l, map[], calls), c, later);
  }

  lemma OneCall(kind: Kind, l: Limits, t: Table, c: Call)
    ensures After(kind, l, t, [c]) == Step(kind, l, t, c)
  {
    hide Step;
    assert [c][1..] == [];
    assert After(kind, l, Step(kind, l, t, c), []) == Step(kind, l, t, c);
  }

  /** A refused call at 60 seconds renews keys that would have expired at 120. */
  lemma RefusedRenews(l: Limits)
    requires Sane(l) && l.burst > 120.0 * l.rate
    ensures !RefusesForFree(Redis, l)
  {
    var first, c := Call(0.0, "", l.burst), Call(60.0, "", l.burst + 1.0);
    var t := After(Redis, l, map[], [first]);
    OneCall(Redis, l, map[], first);
    assert t == map["" := Bucket(0.0, 0.0)];
    StepLeaves(Redis, l, t, c, 120.0);
    assert Available(Redis, l, t, "", 120.0) == l.burst;
    assert IsMonotone([first] + [c]);
    hide Step;
    assert !IsForgotten(Redis, l, [first], c, 120.0);
  }

  /** Refused calls are free always in the local table, and in Redis exactly when
      burst <= 120 * rate: beyond that retrying keeps a bucket from expiring. */
  lemma FreeExactly(kind: Kind, l: Limits)
    requires Sane(l)
    ensures RefusesForFree(kind, l) <==> (kind == Redis ==> l.burst <= 120.0 * l.rate)
  {
    hide IsForgotten, IsMonotone, Allows, After;
    if kind == Redis ==> l.burst <= 120.0 * l.rate {
      forall calls: seq<Call>, c: Call, later: real |
        IsMonotone(calls + [c]) && c.now <= later && !Allows(kind, l, After(kind, l, map[], calls), c)
        ensures IsForgotten(kind, l, calls, c, later)
      {
        RunRefusesForFree(kind, l, calls, c, later);
      }
    } else {
      RefusedRenews(l);
    }
  }

  // ---- a run without its refused calls -------------------------------------

  function Admitted(calls: seq<Call>, decisions: seq<bool>): (r: seq<Call>)
    requires |calls| == |decisions|
    decreases |calls|
  {
    if calls == [] then []
    else (if decisions[0] then [calls[0]] else []) + Admitted(calls[1..], decisions[1..])
  }

  predicate AllAllowed(decisions: seq<bool>) {
    forall i :: 0 <= i < |decisions| ==> decisions[i]
  }

  lemma {:induction false} AdmittedAfter(calls: seq<Call>, decisions: seq<bool>, now: real)
    requires |calls| == |decisions| && IsMonotone(calls) && forall i :: 0 <= i < |calls| ==> now <= calls[i].now
    ensures
      var a := Admitted(calls, decisions);
      IsMonotone(a) && forall i :: 0 <= i < |a| ==> now <= a[i].now
    decreases |calls|
  {
    if calls != [] {
      var rest := Admitted(calls[1..], decisions[1..]);
      AdmittedAfter(calls[1..], decisions[1..], calls[0].now);
      if decisions[0] {
        assert Admitted(calls, decisions) == [calls[0]] + rest;
      } else {
        assert Admitted(calls, decisions) == rest;
      }
    }
  }

  /** Two tables in which every identity finds the same from now on. */
  ghost predicate FindTheSame(l: Limits, t: Table, u: Table, now: real) {
    forall k: string :: Available(Reference, l, t, k, now) == Available(Reference, l, u, k, now)
  }

  lemma SameLater(l: Limits, t: Table, u: Table, now: real, later: real)
    requires Sane(l) && IsCurrent(t, now) && IsCurrent(u, now) && FindTheSame(l, t, u, now) && now <= later
    ensures FindTheSame(l, t, u, later)
  {
    hide Available;
    forall k: string
      ensures Available(Reference, l, t, k, later) == Available(Reference, l, u, k, later)
    {
      Accrual(l, t, k, now, later);
      Accrual(l, u, k, now, later);
    }
  }

  lemma SameStep(l: Limits, t: Table, u: Table, c: Call)
    requires Sane(l) && IsCurrent(t, c.now) && IsCurrent(u, c.now) && FindTheSame(l, t, u, c.now)
    ensures Allows(Reference, l, t, c) == Allows(Reference, l, u, c)
    ensures FindTheSame(l, Step(Reference, l, t, c), Step(Reference, l, u, c), c.now)
    ensures !Allows(Reference, l, t, c) ==> FindTheSame(l, Step(Reference, l, t, c), u, c.now)
  {
    hide Available, Step;
    forall k: string
      ensures Available(Reference, l, Step(Reference, l, t, c), k, c.now)
              == Available(Reference, l, Step(Reference, l, u, c), k, c.now)
      ensures !Allows(Reference, l, t, c) ==>
        Available(Reference, l, Step(Reference, l, t, c), k, c.now) == Available(Reference, l, u, k, c.now)
    {
      SpendTakes(l, t, c, k);
      SpendTakes(l, u, c, k);
      AvailableRange(Reference, l, t, k, c.now);
    }
  }

  lemma RestLater(calls: seq<Call>)
    requires calls != [] && IsMonotone(calls)
    ensures IsMonotone(calls[1..]) && forall i :: 0 <= i < |calls[1..]| ==> calls[0].now <= calls[1..][i].now
  {
    assert forall i :: 0 <= i < |calls[1..]| ==> calls[1..][i] == calls[i + 1];
  }

  lemma OneMoreAllowed(l: Limits, u: Table, c: Call, a: seq<Call>)
    requires Allows(Reference, l, u, c) && AllAllowed(Run(Reference, l, Step(Reference, l, u, c), a))
    ensures AllAllowed(Run(Reference, l, u, [c] + a))
  {
    hide Allows, Step;
    assert ([c] + a)[1..] == a;
  }

  lemma RunSplits(l: Limits, t: Table, calls: seq<Call>)
    requires calls != []
    ensures
      var next := Step(Reference, l, t, calls[0]);
      var rest := Admitted(calls[1..], Run(Reference, l, next, calls[1..]));
      Admitted(calls, Run(Reference, l, t, calls))
      == if Allows(Reference, l, t, calls[0]) then [calls[0]] + rest else rest
  {
    hide Allows, Step;
    var d := Run(Reference, l, t, calls);
    assert d[1..] == Run(Reference, l, Step(Reference, l, t, calls[0]), calls[1..]);
  }

  lemma {:induction false} AdmittedAlone(l: Limits, t: Table, u: Table, calls: seq<Call>, now: real)
    requires Sane(l) && IsCurrent(t, now) && IsCurrent(u, now) && FindTheSame(l, t, u, now)
    requires IsMonotone(calls) && forall i :: 0 <= i < |calls| ==> now <= calls[i].now
    ensures AllAllowed(Run(Reference, l, u, Admitted(calls, Run(Reference, l, t, calls))))
    decreases |calls|
  {
    if calls == [] {
      assert Run(Reference, l, u, []) == [];
    } else {
      var c, rest := calls[0], calls[1..];
      assert IsCurrent(t, c.now) && IsCurrent(u, c.now);
      hide FindTheSame, Step, Allows, IsCurrent, IsMonotone, Run, Admitted, AllAllowed;
      RestLater(calls);
      SameLater(l, t, u, now, c.now);
      SameStep(l, t, u, c);
      StepKeepsRange(Reference, l, t, c);
      StepKeepsRange(Reference, l, u, c);
      RunSplits(l, t, calls);
      var next := Step(Reference, l, t, c);
      if Allows(Reference, l, t, c) {
        AdmittedAlone(l, next, Step(Reference, l, u, c), rest, c.now);
        OneMoreAllowed(l, u, c, Admitted(rest, Run(Reference, l, next, rest)));
      } else {
        AdmittedAlone(l, next, u, rest, c.now);
      }
    }
  }

  /** The allowed calls of a run, made alone, are all allowed too: refused calls, and
      clients that retry, change nothing. For a table that never forgets, and for the
      other two while forgetting is invisible. */
  lemma OnlyAdmittedMatter(kind: Kind, l: Limits, calls: seq<Call>)
    requires Sane(l) && IsMonotone(calls)
    requires kind == Reference || l.burst <= Lifetime(kind) * l.rate
    ensures AllAllowed(Run(kind, l, map[], Admitted(calls, Run(kind, l, map[], calls))))
  {
    hide Run, Admitted, IsMonotone;
    var d := Run(Reference, l, map[], calls);
    if kind != Reference {
      FullBucketsForgotten(kind, l);
    }
    assert Run(kind, l, map[], calls) == d;
    FirstIsEarliest(calls);
    var now := if calls == [] then 0.0 else calls[0].now;
    AdmittedAfter(calls, d, now);
    AdmittedAlone(l, map[], map[], calls, now);
  }

  lemma FirstIsEarliest(calls: seq<Call>)
    requires IsMonotone(calls)
    ensures forall i :: 0 <= i < |calls| ==> calls[0].now <= calls[i].now
  {
  }
}
