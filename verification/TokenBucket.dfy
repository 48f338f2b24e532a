/** The rate limiter of the MCP server: one lazily refilled token bucket per
    identity, kept in a table that forgets idle identities. */
module TokenBucket {

  const MAX_LOCAL := 10_000
  const IDLE_LOCAL := 300.0
  const IDLE_REDIS := 120.0

  datatype Limits = Limits(rate: real, burst: real)

  /** When the bucket was last touched, and what it then held. */
  datatype Bucket = Bucket(last: real, tokens: real)

  type Table = map<string, Bucket>

  datatype Call = Call(now: real, identity: string, cost: real)

  /** `Reference` never forgets; `Local` drops idle entries once the table is
      large; `Redis` lets every entry expire. */
  datatype Kind = Reference | Local | Redis

  function Min(a: real, b: real): real {
    if a <= b then a else b
  }

  function Max(a: real, b: real): real {
    if a >= b then a else b
  }

  predicate Sees(kind: Kind, t: Table, identity: string, now: real) {
    identity in t && (kind == Redis ==> now < t[identity].last + IDLE_REDIS)
  }

  /** The tokens a call at this time finds. */
  function Available(kind: Kind, l: Limits, t: Table, identity: string, now: real): real {
    if !Sees(kind, t, identity, now) then l.burst
    else
      var b := t[identity];
      var elapsed := if kind == Redis then Max(0.0, now - b.last) else now - b.last;
      Min(l.burst, b.tokens + elapsed * l.rate)
  }

  function Allows(kind: Kind, l: Limits, t: Table, c: Call): bool {
    Available(kind, l, t, c.identity, c.now) >= c.cost
  }

  function Spend(kind: Kind, l: Limits, t: Table, c: Call): Table {
    var available := Available(kind, l, t, c.identity, c.now);
    t[c.identity := Bucket(c.now, if available >= c.cost then available - c.cost else available)]
  }

  /** The local table keeps only recently touched identities once it is large. */
  function Evict(t: Table, now: real): Table {
    if |t| > MAX_LOCAL then map k | k in t && now - t[k].last < IDLE_LOCAL :: t[k] else t
  }

  function Step(kind: Kind, l: Limits, t: Table, c: Call): Table {
    var spent := Spend(kind, l, t, c);
    if kind == Local then Evict(spent, c.now) else spent
  }

  /** The decisions of a run, and the table it leaves. */
  function Run(kind: Kind, l: Limits, t: Table, calls: seq<Call>): (decisions: seq<bool>)
    ensures |decisions| == |calls|
    decreases |calls|
  {
    if calls == [] then [] else [Allows(kind, l, t, calls[0])] + Run(kind, l, Step(kind, l, t, calls[0]), calls[1..])
  }

  function After(kind: Kind, l: Limits, t: Table, calls: seq<Call>): Table
    decreases |calls|
  {
    if calls == [] then t else After(kind, l, Step(kind, l, t, calls[0]), calls[1..])
  }

  predicate IsMonotone(calls: seq<Call>) {
    forall i, j :: 0 <= i <= j < |calls| ==> calls[i].now <= calls[j].now
  }

  predicate Sane(l: Limits) {
    0.0 <= l.rate && 0.0 <= l.burst
  }

  // ---- tokens stay in range ------------------------------------------------

  /** Every bucket was touched no later than now and holds no debt. */
  predicate IsCurrent(t: Table, now: real) {
    forall k :: k in t ==> t[k].last <= now && 0.0 <= t[k].tokens
  }

  lemma AvailableRange(kind: Kind, l: Limits, t: Table, identity: string, now: real)
    requires Sane(l) && IsCurrent(t, now)
    ensures 0.0 <= Available(kind, l, t, identity, now) <= l.burst
  {
  }

  /** No call leaves a debt; and with non-negative costs no bucket ever holds
      more than the burst. */
  lemma StepKeepsRange(kind: Kind, l: Limits, t: Table, c: Call)
    requires Sane(l) && IsCurrent(t, c.now)
    ensures IsCurrent(Step(kind, l, t, c), c.now)
    ensures 0.0 <= c.cost && (forall k :: k in t ==> t[k].tokens <= l.burst) ==>
      forall k :: k in Step(kind, l, t, c) ==> Step(kind, l, t, c)[k].tokens <= l.burst
  {
    AvailableRange(kind, l, t, c.identity, c.now);
  }

  // ---- forgetting ----------------------------------------------------------

  function Lifetime(kind: Kind): real
    requires kind != Reference
  {
    if kind == Redis then IDLE_REDIS else IDLE_LOCAL
  }

  predicate LooksTheSame(kind: Kind, l: Limits, t: Table, full: Table, now: real, k: string) {
    && (k in t ==> k in full && t[k] == full[k])
    && (k !in t && k in full ==> full[k].tokens + (now - full[k].last) * l.rate >= l.burst)
  }

  /** A forgetful table beside the one that never forgets: an entry is either
      the same, or gone and full again by now. */
  ghost predicate Mirrors(kind: Kind, l: Limits, t: Table, full: Table, now: real) {
    forall k :: LooksTheSame(kind, l, t, full, now, k)
  }

  lemma Refilled(tokens: real, elapsed: real, l: Limits, life: real)
    requires Sane(l) && 0.0 <= tokens && life <= elapsed && l.burst <= life * l.rate
    ensures tokens + elapsed * l.rate >= l.burst
  {
    assert life * l.rate <= elapsed * l.rate;
  }

  lemma RefillGrows(b: Bucket, l: Limits, now: real, later: real)
    requires Sane(l) && now <= later
    ensures b.tokens + (now - b.last) * l.rate <= b.tokens + (later - b.last) * l.rate
  {
    assert (now - b.last) * l.rate <= (later - b.last) * l.rate;
  }

  lemma SameAvailable(kind: Kind, l: Limits, t: Table, full: Table, k: string, now: real)
    requires kind != Reference && Sane(l) && l.burst <= Lifetime(kind) * l.rate
    requires IsCurrent(full, now) && Mirrors(kind, l, t, full, now)
    ensures Available(kind, l, t, k, now) == Available(Reference, l, full, k, now)
  {
    assert LooksTheSame(kind, l, t, full, now, k);
    if k in t && kind == Redis && now >= t[k].last + IDLE_REDIS {
      Refilled(full[k].tokens, now - full[k].last, l, IDLE_REDIS);
    }
  }

  lemma MirrorsLater(kind: Kind, l: Limits, t: Table, full: Table, now: real, later: real)
    requires Sane(l) && Mirrors(kind, l, t, full, now) && now <= later
    ensures Mirrors(kind, l, t, full, later)
  {
    forall k
      ensures LooksTheSame(kind, l, t, full, later, k)
    {
      assert LooksTheSame(kind, l, t, full, now, k);
      if k in full {
        RefillGrows(full[k], l, now, later);
      }
    }
  }

  lemma SpendMirrors(kind: Kind, l: Limits, t: Table, full: Table, c: Call)
    requires kind != Reference && Sane(l) && l.burst <= Lifetime(kind) * l.rate
    requires IsCurrent(full, c.now) && Mirrors(kind, l, t, full, c.now)
    ensures Allows(kind, l, t, c) == Allows(Reference, l, full, c)
    ensures Mirrors(kind, l, Spend(kind, l, t, c), Spend(Reference, l, full, c), c.now)
  {
    SameAvailable(kind, l, t, full, c.identity, c.now);
    hide Available;
    forall k
      ensures LooksTheSame(kind, l, Spend(kind, l, t, c), Spend(Reference, l, full, c), c.now, k)
    {
      assert LooksTheSame(kind, l, t, full, c.now, k);
    }
  }

  lemma EvictMirrors(l: Limits, t: Table, full: Table, now: real)
    requires Sane(l) && l.burst <= IDLE_LOCAL * l.rate
    requires IsCurrent(full, now) && Mirrors(Local, l, t, full, now)
    ensures Mirrors(Local, l, Evict(t, now), full, now)
  {
    forall k
      ensures LooksTheSame(Local, l, Evict(t, now), full, now, k)
    {
      assert LooksTheSame(Local, l, t, full, now, k);
      if k in t && k !in Evict(t, now) {
        Refilled(full[k].tokens, now - full[k].last, l, IDLE_LOCAL);
      }
    }
  }

  lemma StepMirrors(kind: Kind, l: Limits, t: Table, full: Table, c: Call)
    requires kind != Reference && Sane(l) && l.burst <= Lifetime(kind) * l.rate
    requires IsCurrent(full, c.now) && Mirrors(kind, l, t, full, c.now)
    ensures Allows(kind, l, t, c) == Allows(Reference, l, full, c)
    ensures Mirrors(kind, l, Step(kind, l, t, c), Step(Reference, l, full, c), c.now)
  {
    hide Mirrors, Spend, Evict, Allows;
    SpendMirrors(kind, l, t, full, c);
    StepKeepsRange(Reference, l, full, c);
    if kind == Local {
      EvictMirrors(l, Spend(kind, l, t, c), Step(Reference, l, full, c), c.now);
    }
  }

  lemma {:induction false} RunMirrors(kind: Kind, l: Limits, t: Table, full: Table, calls: seq<Call>, now: real)
    requires kind != Reference && Sane(l) && l.burst <= Lifetime(kind) * l.rate
    requires IsMonotone(calls) && (calls != [] ==> now <= calls[0].now)
    requires IsCurrent(full, now) && Mirrors(kind, l, t, full, now)
    ensures Run(kind, l, t, calls) == Run(Reference, l, full, calls)
    decreases |calls|
  {
    if calls != [] {
      var c := calls[0];
      MirrorsLater(kind, l, t, full, now, c.now);
      StepMirrors(kind, l, t, full, c);
      StepKeepsRange(Reference, l, full, c);
      assert forall i, j :: 0 <= i <= j < |calls[1..]| ==> calls[1..][i].now <= calls[1..][j].now;
      RunMirrors(kind, l, Step(kind, l, t, c), Step(Reference, l, full, c), calls[1..], c.now);
    }
  }

  /** Forgetting is invisible: on every run with a non-decreasing clock. */
  ghost predicate IsInvisible(kind: Kind, l: Limits) {
    forall calls: seq<Call> :: IsMonotone(calls) ==> Run(kind, l, map[], calls) == Run(Reference, l, map[], calls)
  }

  lemma FullBucketsForgotten(kind: Kind, l: Limits)
    requires kind != Reference && Sane(l) && l.burst <= Lifetime(kind) * l.rate
    ensures IsInvisible(kind, l)
  {
    forall calls: seq<Call> | IsMonotone(calls)
      ensures Run(kind, l, map[], calls) == Run(Reference, l, map[], calls)
    {
      RunMirrors(kind, l, map[], map[], calls, if calls == [] then 0.0 else calls[0].now);
    }
  }

  // ---- the bounds are exact ------------------------------------------------

  /** `n` identities, the k-th a name of k characters. */
  function Name(k: nat): (s: string)
    ensures |s| == k
  {
    seq(k, _ => 'x')
  }

  function Crowd(n: nat, now: real): (calls: seq<Call>)
    ensures |calls| == n
    ensures forall i :: 0 <= i < n ==> calls[i] == Call(now, Name(i + 1), 0.0)
  {
    seq(n, i requires 0 <= i < n => Call(now, Name(i + 1), 0.0))
  }

  /** After identity "" has spent the burst at time 0 and k others have called
      at time 300 for nothing. */
  function CrowdTable(l: Limits, k: nat): Table {
    if k == 0 then map["" := Bucket(0.0, 0.0)] else CrowdTable(l, k - 1)[Name(k) := Bucket(IDLE_LOCAL, l.burst)]
  }

  lemma {:induction false} CrowdTableHas(l: Limits, k: nat)
    ensures |CrowdTable(l, k)| == k + 1
    ensures "" in CrowdTable(l, k) && CrowdTable(l, k)[""] == Bucket(0.0, 0.0)
    ensures forall s :: s in CrowdTable(l, k) && s != "" ==>
      1 <= |s| <= k && CrowdTable(l, k)[s] == Bucket(IDLE_LOCAL, l.burst)
  {
    if k > 0 {
      CrowdTableHas(l, k - 1);
      assert Name(k) !in CrowdTable(l, k - 1);
    }
  }

  lemma {:induction false} RunAppend(kind: Kind, l: Limits, t: Table, a: seq<Call>, b: seq<Call>)
    ensures Run(kind, l, t, a + b) == Run(kind, l, t, a) + Run(kind, l, After(kind, l, t, a), b)
    ensures After(kind, l, t, a + b) == After(kind, l, After(kind, l, t, a), b)
    decreases |a|
  {
    hide Step, Allows;
    if a == [] {
      assert a + b == b;
    } else {
      assert (a + b)[1..] == a[1..] + b;
      RunAppend(kind, l, Step(kind, l, t, a[0]), a[1..], b);
    }
  }

  lemma CrowdStep(kind: Kind, l: Limits, k: nat)
    requires kind != Redis && Sane(l) && 1 <= k
    ensures Spend(kind, l, CrowdTable(l, k - 1), Call(IDLE_LOCAL, Name(k), 0.0)) == CrowdTable(l, k)
  {
    CrowdTableHas(l, k - 1);
    assert Name(k) !in CrowdTable(l, k - 1);
  }

  /** The crowd's table as the limiter keeps it. */
  function CrowdKept(kind: Kind, l: Limits, k: nat): Table {
    if kind == Local then Evict(CrowdTable(l, k), IDLE_LOCAL) else CrowdTable(l, k)
  }

  lemma CrowdTurn(kind: Kind, l: Limits, k: nat)
    requires kind != Redis && Sane(l) && 1 <= k <= MAX_LOCAL
    ensures After(kind, l, CrowdKept(kind, l, k - 1), [Call(IDLE_LOCAL, Name(k), 0.0)]) == CrowdKept(kind, l, k)
  {
    var c := Call(IDLE_LOCAL, Name(k), 0.0);
    CrowdTableHas(l, k - 1);
    hide CrowdTable, Spend;
    CrowdStep(kind, l, k);
    assert CrowdKept(kind, l, k - 1) == CrowdTable(l, k - 1);
    assert After(kind, l, CrowdTable(l, k - 1), [c]) == Step(kind, l, CrowdTable(l, k - 1), c);
  }

  lemma {:induction false} CrowdAfter(kind: Kind, l: Limits, k: nat)
    requires kind != Redis && Sane(l) && k <= MAX_LOCAL
    ensures After(kind, l, CrowdTable(l, 0), Crowd(k, IDLE_LOCAL)) == CrowdKept(kind, l, k)
  {
    if k > 0 {
      var c := Call(IDLE_LOCAL, Name(k), 0.0);
      assert Crowd(k, IDLE_LOCAL) == Crowd(k - 1, IDLE_LOCAL) + [c];
      hide Crowd, After, CrowdKept, CrowdTable;
      CrowdAfter(kind, l, k - 1);
      RunAppend(kind, l, CrowdTable(l, 0), Crowd(k - 1, IDLE_LOCAL), [c]);
      CrowdTurn(kind, l, k);
    }
  }

  /** Spend the burst, let time and 10000 identities go by, spend it again. */
  function EvictionTrace(l: Limits): seq<Call> {
    [Call(0.0, "", l.burst)] + (Crowd(MAX_LOCAL, IDLE_LOCAL) + [Call(IDLE_LOCAL, "", l.burst)])
  }

  lemma EvictionTraceEnd(kind: Kind, l: Limits)
    requires kind != Redis && Sane(l)
    ensures
      var t := CrowdKept(kind, l, MAX_LOCAL);
      var d := Run(kind, l, map[], EvictionTrace(l));
      d != [] && d[|d| - 1] == Allows(kind, l, t, Call(IDLE_LOCAL, "", l.burst))
  {
    var first, last := Call(0.0, "", l.burst), Call(IDLE_LOCAL, "", l.burst);
    var crowd := Crowd(MAX_LOCAL, IDLE_LOCAL);
    assert Spend(kind, l, map[], first) == CrowdTable(l, 0);
    RunAppend(kind, l, map[], [first], crowd + [last]);
    assert After(kind, l, map[], [first]) == Step(kind, l, map[], first) == CrowdTable(l, 0);
    RunAppend(kind, l, CrowdTable(l, 0), crowd, [last]);
    CrowdAfter(kind, l, MAX_LOCAL);
  }

  lemma EvictionForgives(l: Limits)
    requires Sane(l)
    ensures Allows(Local, l, Evict(CrowdTable(l, MAX_LOCAL), IDLE_LOCAL), Call(IDLE_LOCAL, "", l.burst))
  {
    CrowdTableHas(l, MAX_LOCAL);
  }

  lemma ReferenceRemembers(l: Limits)
    requires Sane(l) && l.burst > IDLE_LOCAL * l.rate
    ensures !Allows(Reference, l, CrowdTable(l, MAX_LOCAL), Call(IDLE_LOCAL, "", l.burst))
  {
    CrowdTableHas(l, MAX_LOCAL);
  }

  lemma EvictionTraceMonotone(l: Limits)
    ensures IsMonotone(EvictionTrace(l))
  {
    var calls := EvictionTrace(l);
    assert forall i :: 1 <= i < |calls| ==> calls[i].now == IDLE_LOCAL;
  }

  lemma EvictionIsSeen(l: Limits)
    requires Sane(l) && l.burst > IDLE_LOCAL * l.rate
    ensures !IsInvisible(Local, l)
  {
    hide Allows, Evict, CrowdTable, Run, EvictionTrace, IsMonotone;
    EvictionTraceEnd(Local, l);
    EvictionTraceEnd(Reference, l);
    EvictionForgives(l);
    ReferenceRemembers(l);
    EvictionTraceMonotone(l);
    assert Run(Local, l, map[], EvictionTrace(l)) != Run(Reference, l, map[], EvictionTrace(l));
  }

  lemma ExpiryIsSeen(l: Limits)
    requires Sane(l) && l.burst > IDLE_REDIS * l.rate
    ensures !IsInvisible(Redis, l)
  {
    var first, last := Call(0.0, "", l.burst), Call(IDLE_REDIS, "", l.burst);
    var calls := [first] + [last];
    RunAppend(Redis, l, map[], [first], [last]);
    RunAppend(Reference, l, map[], [first], [last]);
    assert After(Redis, l, map[], [first]) == Step(Redis, l, map[], first);
    assert After(Reference, l, map[], [first]) == Step(Reference, l, map[], first);
    assert Run(Redis, l, map[], calls)[1] != Run(Reference, l, map[], calls)[1];
    assert IsMonotone(calls);
  }

  /** Dropping idle identities never changes a decision exactly when an idle
      bucket is full again by the time it is dropped: burst <= 300 * rate for
      the local table, burst <= 120 * rate for the expiring keys of Redis. */
  lemma ForgettingIsExact(kind: Kind, l: Limits)
    requires kind != Reference && Sane(l)
    ensures IsInvisible(kind, l) <==> l.burst <= Lifetime(kind) * l.rate
  {
    if l.burst <= Lifetime(kind) * l.rate {
      FullBucketsForgotten(kind, l);
    } else if kind == Local {
      EvictionIsSeen(l);
    } else {
      ExpiryIsSeen(l);
    }
  }

  // ---- the limiter ---------------------------------------------------------

  /** Whether the shared store can be reached, and answers. */
  datatype Backend = Disabled | Connected | Failing

  class McpRateLimiter {
    const limits: Limits
    var local: Table
    /** The `mcp:rl:*` keys, with the expiry folded into their timestamps. */
    var remote: Table

    constructor (rate: real := 20.0, burst: real := 40.0)
      ensures limits == Limits(rate, burst) && local == map[] && remote == map[]
    {
      limits := Limits(rate, burst);
      local, remote := map[], map[];
    }

    /** `_allow_local`. */
    method AllowLocal(now: real, identity: string, cost: real) returns (allowed: bool)
      modifies this`local
      ensures allowed == Allows(Local, limits, old(local), Call(now, identity, cost))
      ensures local == Step(Local, limits, old(local), Call(now, identity, cost))
    {
      var (last, tokens) :=
        if identity in local then (local[identity].last, local[identity].tokens) else (now, limits.burst);
      tokens := Min(limits.burst, tokens + (now - last) * limits.rate);
      assert tokens == Available(Local, limits, local, identity, now);
      allowed := tokens >= cost;
      if allowed {
        tokens := tokens - cost;
      }
      local := local[identity := Bucket(now, tokens)];
      assert local == Spend(Local, limits, old(local), Call(now, identity, cost));
      if |local| > MAX_LOCAL {
        local := map k | k in local && now - local[k].last < IDLE_LOCAL :: local[k];
      }
    }

    /** `_allow_redis`, its reads and writes not interleaved with another call. */
    method AllowRedis(now: real, identity: string, cost: real) returns (allowed: bool)
      modifies this`remote
      ensures allowed == Allows(Redis, limits, old(remote), Call(now, identity, cost))
      ensures remote == Step(Redis, limits, old(remote), Call(now, identity, cost))
    {
      var available := limits.burst;
      if identity in remote && now < remote[identity].last + IDLE_REDIS {
        var elapsed := Max(0.0, now - remote[identity].last);
        available := Min(limits.burst, remote[identity].tokens + elapsed * limits.rate);
      }
      allowed := available >= cost;
      var remaining := if allowed then available - cost else available;
      remote := remote[identity := Bucket(now, remaining)];
    }

    /** `allow`: an outage of the store allows the call. */
    method Allow(backend: Backend, now: real, identity: string, cost: real := 1.0) returns (allowed: bool)
      modifies this
      ensures backend == Failing ==> allowed && local == old(local) && remote == old(remote)
      ensures backend == Connected ==>
        && allowed == Allows(Redis, limits, old(remote), Call(now, identity, cost))
        && remote == Step(Redis, limits, old(remote), Call(now, identity, cost)) && local == old(local)
      ensures backend == Disabled ==>
        && allowed == Allows(Local, limits, old(local), Call(now, identity, cost))
        && local == Step(Local, limits, old(local), Call(now, identity, cost)) && remote == old(remote)
    {
      match backend
      case Connected => allowed := AllowRedis(now, identity, cost);
      case Disabled => allowed := AllowLocal(now, identity, cost);
      case Failing => allowed := true;
    }
  }
}
