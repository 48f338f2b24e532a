/** Applying the backfill to one tenant: refuse on a collision, write row by row
    in one transaction, and count what is left. */
module BackfillApply {
  import opened Attempts
  import opened MemoryTable
  import opened Backfill
  import opened BackfillRun

  const RECHECK_PAGE := 500

  function Outstanding(formula: Formula): Row -> bool {
    (row: Row) => IsOutstanding(formula, row)
  }

  // ---- a rewritten tenant is a fixed point ---------------------------------

  /** After the rewrite no row of the tenant is off its formula, a second rewrite
      changes nothing, and other tenants never change. */
  lemma RekeyedIsFixed(formula: Formula, rows: seq<Row>, org: nat)
    ensures Count(Scoped(Rekeyed(formula, rows, org), org), Outstanding(formula)) == 0
    ensures Rekeyed(formula, Rekeyed(formula, rows, org), org) == Rekeyed(formula, rows, org)
    ensures forall other :: other != org ==> Scoped(Rekeyed(formula, rows, org), other) == Scoped(rows, other)
  {
    var all := Rekeyed(formula, rows, org);
    var p := Within(org, Outstanding(formula));
    CountScoped(all, org, Outstanding(formula));
    CountNone(all, p);
    assert forall i :: 0 <= i < |all| ==> !p(all[i]);
    assert Rekeyed(formula, all, org) == all;
    forall other | other != org
      ensures Scoped(all, other) == Scoped(rows, other)
    {
      OthersUntouched(formula, rows, org, other, |rows|);
      assert rows[..|rows|] == rows && all[..|rows|] == all;
    }
  }

  /** The rewrite gives a row of the tenant the formula's key when there is one, and
      changes nothing else; a row is outstanding exactly when that changes it. */
  lemma RekeyedExactly(formula: Formula, rows: seq<Row>, org: nat, i: nat)
    requires i < |rows|
    ensures
      var now, key := Rekeyed(formula, rows, org)[i], formula(rows[i].structured);
      && now.(key := None) == rows[i].(key := None)
      && now.key == (if rows[i].organization == org && key.Some? then key else rows[i].key)
      && (rows[i].organization == org ==> (IsOutstanding(formula, rows[i]) <==> now != rows[i]))
  {
  }

  lemma {:induction false} OthersUntouched(formula: Formula, rows: seq<Row>, org: nat, other: nat, m: nat)
    requires m <= |rows| && other != org
    ensures Scoped(Rekeyed(formula, rows, org)[..m], other) == Scoped(rows[..m], other)
  {
    if m > 0 {
      OthersUntouched(formula, rows, org, other, m - 1);
      ScopedNext(rows, other, m - 1);
      ScopedNext(Rekeyed(formula, rows, org), other, m - 1);
    }
  }

  // ---- what the slot counts say --------------------------------------------

  /** `collisions_introduced`. */
  function CollisionsIntroduced(before: nat, after: nat): nat {
    if after > before then after - before else 0
  }

  function GainsFirstKey(formula: Formula): Row -> bool {
    (row: Row) => SlotBefore()(row).None? && SlotAfter(formula)(row).Some?
  }

  /** No two rows of a tenant share a slot before, given the index. */
  lemma SlotsBeforeAreRows(rows: seq<Row>, org: nat)
    requires UniqueSlots(rows)
    ensures |Counted(SlotBefore(), Scoped(rows, org))| == Count(Scoped(rows, org), Placed(SlotBefore()))
  {
    var scoped := Scoped(rows, org);
    SlotsAtMostRows(SlotBefore(), scoped);
    forall slot | slot in Counted(SlotBefore(), scoped)
      ensures Counted(SlotBefore(), scoped)[slot] == 1
    {
      CountedTallies(SlotBefore(), scoped, slot);
      var p := Within(org, Holding(SlotBefore(), slot));
      CountScoped(rows, org, Holding(SlotBefore(), slot));
      CountTwo(rows, p);
      assert forall i, j :: 0 <= i < j < |rows| ==> !SameSlot(rows[i], rows[j]);
    }
  }

  /** The number reported as collisions introduced is, when there is no
      collision, the number of current rows given their first key; a collision
      only makes it smaller. */
  lemma CollisionsIntroducedCountsFirstKeys(formula: Formula, rows: seq<Row>, org: nat)
    requires UniqueSlots(rows) && MakesStructural(formula)
    ensures
      var scoped := Scoped(rows, org);
      var introduced := CollisionsIntroduced(|Counted(SlotBefore(), scoped)|, |Counted(SlotAfter(formula), scoped)|);
      var first := Count(scoped, GainsFirstKey(formula));
      && introduced <= first
      && (Collisions(Counted(SlotAfter(formula), scoped)) == map[] ==> introduced == first)
      && (introduced == first > 0 ==> Collisions(Counted(SlotAfter(formula), scoped)) == map[])
  {
    var scoped := Scoped(rows, org);
    var after := Counted(SlotAfter(formula), scoped);
    SlotsBeforeAreRows(rows, org);
    SlotsAtMostRows(SlotAfter(formula), scoped);
    assert forall i :: 0 <= i < |scoped| && SlotBefore()(scoped[i]).Some? ==> SlotAfter(formula)(scoped[i]).Some?;
    CountSum(scoped, Placed(SlotAfter(formula)), Placed(SlotBefore()), GainsFirstKey(formula));
    forall slot | slot in after
      ensures after[slot] >= 1 && slot.1 != ""
    {
      CountedTallies(SlotAfter(formula), scoped, slot);
      CountNone(scoped, Holding(SlotAfter(formula), slot));
    }
    assert forall slot :: slot in after && after[slot] > 1 ==> slot in Collisions(after);
    assert forall slot :: slot in Collisions(after) ==> after[slot] > 1;
  }

  // ---- every write names one row -------------------------------------------

  predicate SameIdentity(a: seq<Row>, b: seq<Row>) {
    |a| == |b| && forall i :: 0 <= i < |a| ==> a[i].id == b[i].id && a[i].organization == b[i].organization
  }

  lemma {:induction false} WrittenIdentity(rows: seq<Row>, org: nat, writes: seq<Write>)
    ensures SameIdentity(rows, Written(rows, org, writes))
  {
    if writes != [] {
      WrittenIdentity(rows, org, writes[..|writes| - 1]);
    }
  }

  lemma {:induction false} WriteNamesRow(formula: Formula, rows: seq<Row>, org: nat, q: nat, m: nat) returns (i: nat)
    requires m <= |rows| && q < |Writes(formula, Scoped(rows[..m], org))|
    ensures i < |rows| && IsTarget(rows[i], org, Writes(formula, Scoped(rows[..m], org))[q].0)
  {
    var last := m - 1;
    ScopedNext(rows, org, last);
    WritesNext(formula, Scoped(rows[..last], org), rows[last]);
    if q < |Writes(formula, Scoped(rows[..last], org))| {
      i := WriteNamesRow(formula, rows, org, q, last);
    } else {
      i := last;
    }
  }

  /** Each write of the rewrite matches exactly one row. */
  lemma WriteIsSingle(formula: Formula, rows: seq<Row>, org: nat, q: nat)
    requires UniqueIds(rows) && q < |Writes(formula, Scoped(rows, org))|
    ensures Count(Written(rows, org, Writes(formula, Scoped(rows, org))[..q]),
                  Target(org, Writes(formula, Scoped(rows, org))[q].0)) == 1
  {
    var writes := Writes(formula, Scoped(rows, org));
    var now, p := Written(rows, org, writes[..q]), Target(org, writes[q].0);
    WrittenIdentity(rows, org, writes[..q]);
    assert rows[..|rows|] == rows;
    var i := WriteNamesRow(formula, rows, org, q, |rows|);
    assert p(now[i]);
    CountNone(now, p);
    CountTwo(now, p);
    assert forall a, b :: 0 <= a < b < |now| ==> now[a].id == rows[a].id != rows[b].id == now[b].id;
  }

  // ---- the calls -----------------------------------------------------------

  /** `_count_outstanding`. */
  method CountOutstanding(store: MemoryStore, formula: Formula, org: nat) returns (outstanding: nat)
    ensures outstanding == Count(Scoped(store.rows, org), Outstanding(formula))
  {
    ghost var scoped := Scoped(store.rows, org);
    outstanding := 0;
    var offset := 0;
    while true
      invariant offset <= |scoped| && scoped == Scoped(store.rows, org)
      invariant outstanding == Count(scoped[..offset], Outstanding(formula))
      decreases |scoped| - offset
    {
      var rows := store.GetAll(org, offset, RECHECK_PAGE);
      if rows == [] {
        break;
      }
      for k := 0 to |rows|
        invariant outstanding == Count(scoped[..offset + k], Outstanding(formula))
      {
        CountNext(scoped, offset + k, Outstanding(formula));
        if IsOutstanding(formula, rows[k]) {
          outstanding := outstanding + 1;
        }
      }
      offset := offset + |rows|;
      if |rows| < RECHECK_PAGE {
        break;
      }
    }
    assert scoped[..offset] == scoped;
  }

  /** The reading pass into a new report. */
  method ProjectTenant(store: MemoryStore, formula: Formula, org: nat, batchSize: nat)
      returns (report: TenantReport, projected: seq<Write>)
    requires batchSize >= 1
    ensures fresh(report) && report.unverified == None
    ensures report.Describes(formula, Scoped(store.rows, org))
    ensures report.currentSlotsBefore == |Counted(SlotBefore(), Scoped(store.rows, org))|
    ensures report.currentSlotsAfter == |Counted(SlotAfter(formula), Scoped(store.rows, org))|
    ensures report.blockingCollisions == Collisions(Counted(SlotAfter(formula), Scoped(store.rows, org)))
    ensures projected == Writes(formula, Scoped(store.rows, org))
  {
    report := new TenantReport();
    var before, after;
    projected, before, after := ScanTenant(store, formula, org, batchSize, report);
    report.Conclude(before, after);
  }

  /** One write of the pass. A write that matches no single row would raise,
      which never happens. */
  method WriteOne(store: MemoryStore, formula: Formula, org: nat, ghost was: seq<Row>, ghost k: nat, write: Write)
      returns (ok: bool)
    requires UniqueIds(was) && k < |Writes(formula, Scoped(was, org))| && write == Writes(formula, Scoped(was, org))[k]
    requires store.rows == Written(was, org, Writes(formula, Scoped(was, org))[..k])
    modifies store`rows
    ensures ok <==> UniqueSlots(Written(was, org, Writes(formula, Scoped(was, org))[..k + 1]))
    ensures store.rows == if ok then Written(was, org, Writes(formula, Scoped(was, org))[..k + 1]) else old(store.rows)
  {
    ghost var writes := Writes(formula, Scoped(was, org));
    assert writes[..k + 1] == writes[..k] + [writes[k]];
    WrittenNext(was, org, writes[..k], writes[k]);
    WriteIsSingle(formula, was, org, k);
    var written := store.WriteKey(org, write.0, write.1);
    ok := written.Updated?;
    if written.Updated? && written.count != 1 {
      assert false;
    }
  }

  /** The index held after each of the first k writes. */
  predicate Passed(rows: seq<Row>, org: nat, writes: seq<Write>, k: nat)
    requires k <= |writes|
  {
    k == 0 || (Passed(rows, org, writes, k - 1) && UniqueSlots(Written(rows, org, writes[..k])))
  }

  lemma {:induction false} PassedEach(rows: seq<Row>, org: nat, writes: seq<Write>, k: nat, q: nat)
    requires q <= k <= |writes| && UniqueSlots(rows) && Passed(rows, org, writes, k)
    ensures UniqueSlots(Written(rows, org, writes[..q]))
  {
    if q < k {
      PassedEach(rows, org, writes, k - 1, q);
    }
  }

  lemma AllPassed(formula: Formula, rows: seq<Row>, org: nat, writes: seq<Write>)
    requires UniqueIds(rows) && UniqueSlots(rows) && writes == Writes(formula, Scoped(rows, org))
    requires Passed(rows, org, writes, |writes|)
    ensures StaysUnique(formula, rows, org)
    ensures Written(rows, org, writes[..|writes|]) == Rekeyed(formula, rows, org)
  {
    hide UniqueSlots, UniqueIds, Written, Writes, Scoped, Passed;
    assert writes[..|writes|] == writes;
    AllWritten(formula, rows, org);
    forall q | 0 <= q <= |writes|
      ensures UniqueSlots(Written(rows, org, writes[..q]))
    {
      PassedEach(rows, org, writes, |writes|, q);
    }
  }

  lemma OneFailed(formula: Formula, rows: seq<Row>, org: nat, writes: seq<Write>, q: nat)
    requires writes == Writes(formula, Scoped(rows, org)) && q <= |writes|
    requires !UniqueSlots(Written(rows, org, writes[..q]))
    ensures !StaysUnique(formula, rows, org)
  {
    hide UniqueSlots, Written, Writes, Scoped;
  }

  /** The writing pass, rolled back when the index rejects a write. */
  method WriteAll(store: MemoryStore, formula: Formula, org: nat, projected: seq<Write>) returns (outcome: Outcome)
    requires UniqueIds(store.rows) && UniqueSlots(store.rows) && store.committed == store.rows
    requires projected == Writes(formula, Scoped(store.rows, org))
    modifies store
    ensures outcome == Returned <==> StaysUnique(formula, old(store.rows), org)
    ensures store.rows == if outcome == Returned then Rekeyed(formula, old(store.rows), org) else old(store.rows)
    ensures store.committed == store.rows
  {
    ghost var was := store.rows;
    for k := 0 to |projected|
      invariant store.rows == Written(was, org, projected[..k]) && store.committed == was
      invariant Passed(was, org, projected, k)
    {
      var ok := WriteOne(store, formula, org, was, k, projected[k]);
      if !ok {
        store.RollBack();
        OneFailed(formula, was, org, projected, k + 1);
        return IndexViolated;
      }
    }
    store.Commit();
    AllPassed(formula, was, org, projected);
    outcome := Returned;
  }

  /** `_backfill_tenant`. The table behind it satisfies its primary key and its
      index. */
  method BackfillTenant(store: MemoryStore, formula: Formula, org: nat, batchSize: nat, apply: bool)
      returns (outcome: Outcome, report: TenantReport)
    requires batchSize >= 1 && MakesStructural(formula)
    requires UniqueIds(store.rows) && UniqueSlots(store.rows) && store.committed == store.rows
    modifies store
    ensures fresh(report)
    ensures report.Describes(formula, Scoped(old(store.rows), org))
    ensures report.currentSlotsBefore == |Counted(SlotBefore(), Scoped(old(store.rows), org))|
    ensures report.currentSlotsAfter == |Counted(SlotAfter(formula), Scoped(old(store.rows), org))|
    ensures report.blockingCollisions == Collisions(Counted(SlotAfter(formula), Scoped(old(store.rows), org)))
    ensures report.blockingCollisions == map[] <==> UniqueSlots(Rekeyed(formula, old(store.rows), org))
    ensures outcome == Returned <==>
      (apply && UniqueSlots(Rekeyed(formula, old(store.rows), org)) ==> StaysUnique(formula, old(store.rows), org))
    ensures store.rows == if apply && report.blockingCollisions == map[] && outcome == Returned
                          then Rekeyed(formula, old(store.rows), org) else old(store.rows)
    ensures report.unverified == if apply && report.blockingCollisions == map[] && outcome == Returned
                                 then Some(0) else None
    ensures UniqueIds(store.rows) && UniqueSlots(store.rows) && store.committed == store.rows
  {
    ghost var was := store.rows;
    var projected;
    report, projected := ProjectTenant(store, formula, org, batchSize);
    CollisionsExact(formula, was, org);
    if !apply || report.blockingCollisions != map[] {
      return Returned, report;
    }
    outcome := WriteAll(store, formula, org, projected);
    if outcome == Returned {
      RekeyedIsFixed(formula, was, org);
      var unverified := CountOutstanding(store, formula, org);
      report.unverified := Some(unverified);
    }
  }
}
