/** Entering planned records into the table: when the index lets every one in,
    and that no slot is left empty. */
module Insertion {
  import opened MemoryTable
  import opened Supersession

  /** Records that no row of the table can be mistaken for. */
  predicate AreFresh(rows: seq<Row>, excluded: set<nat>, recs: seq<Row>) {
    && (forall i :: 0 <= i < |rows| ==> rows[i].id !in excluded)
    && (forall k :: 0 <= k < |recs| ==> recs[k].id in excluded)
  }

  /** The records the plan leaves, in order. */
  function KeptRecords(recs: seq<Row>, blocked: set<nat>): seq<Row> {
    if recs == [] then []
    else
      var last := recs[|recs| - 1];
      KeptRecords(recs[..|recs| - 1], blocked) + if last.id in blocked then [] else [last]
  }

  lemma {:induction false} KeptFrom(recs: seq<Row>, blocked: set<nat>, rec: Row)
    ensures rec in KeptRecords(recs, blocked) <==> rec in recs && rec.id !in blocked
  {
    if recs != [] {
      var n := |recs| - 1;
      KeptFrom(recs[..n], blocked, rec);
      assert recs == recs[..n] + [recs[n]];
    }
  }

  lemma BatchOfMore(before: seq<Row>, rec: Row)
    requires IsBatch(before) && rec.current && rec.key.Some?
    requires forall a :: 0 <= a < |before| ==> before[a].id != rec.id && before[a].key != rec.key
    ensures IsBatch(before + [rec])
  {
  }

  lemma EarlierDiffers(recs: seq<Row>, blocked: set<nat>, n: nat, rec: Row)
    requires IsBatch(recs) && n < |recs| && rec in KeptRecords(recs[..n], blocked)
    ensures rec.id != recs[n].id && rec.key != recs[n].key
  {
    KeptFrom(recs[..n], blocked, rec);
    var j :| 0 <= j < n && recs[..n][j] == rec;
    assert recs[j] == rec;
  }

  lemma BatchPrefix(recs: seq<Row>, n: nat)
    requires IsBatch(recs) && n <= |recs|
    ensures IsBatch(recs[..n])
  {
  }

  lemma {:induction false} KeptIsBatch(recs: seq<Row>, blocked: set<nat>)
    requires IsBatch(recs)
    ensures IsBatch(KeptRecords(recs, blocked))
  {
    if recs == [] {
      assert KeptRecords(recs, blocked) == recs;
    } else {
      var n := |recs| - 1;
      var before, last := KeptRecords(recs[..n], blocked), recs[n];
      assert last.current && last.key.Some?;
      BatchPrefix(recs, n);
      hide IsBatch;
      KeptIsBatch(recs[..n], blocked);
      if last.id in blocked {
        assert KeptRecords(recs, blocked) == before;
      } else {
        forall a | 0 <= a < |before|
          ensures before[a].id != last.id && before[a].key != last.key
        {
          EarlierDiffers(recs, blocked, n, before[a]);
        }
        BatchOfMore(before, last);
      }
    }
  }

  /** Being named by the plan is being blocked. */
  lemma NamedIsBlocked(engine: Engine, excluded: set<nat>, rows: seq<Row>, recs: seq<Row>, k: nat)
    requires IsBatch(recs) && k < |recs|
    ensures recs[k].id in BlockedIds(engine, excluded, rows, recs) <==> IsBlocked(engine, excluded, rows, recs[k])
  {
    hide IsBlocked;
    if recs[k].id in BlockedIds(engine, excluded, rows, recs) {
      var j :| 0 <= j < |recs| && IsBlocked(engine, excluded, rows, recs[j]) && recs[j].id == recs[k].id;
      assert j == k;
    }
  }

  /** A row of another memory type holds the record's slot. */
  predicate HeldByOtherType(rows: seq<Row>, rec: Row) {
    exists i :: 0 <= i < |rows| && SharesSlot(rec, rows[i]) && rows[i].memoryType != rec.memoryType
  }

  /** While the index holds, such a record has no candidate, and is not blocked. */
  lemma HeldIsUnblocked(engine: Engine, excluded: set<nat>, rows: seq<Row>, rec: Row)
    requires UniqueSlots(rows) && HeldByOtherType(rows, rec)
    ensures !IsBlocked(engine, excluded, rows, rec)
  {
    OneCandidate(excluded, rows, rec);
  }

  /** Once the plan has run, an unblocked record's slot is held exactly by rows of
      another memory type. */
  lemma HeldAfterPlan(engine: Engine, excluded: set<nat>, rows: seq<Row>, recs: seq<Row>, k: nat, i: nat)
    requires IsBatch(recs) && AreFresh(rows, excluded, recs)
    requires k < |recs| && !IsBlocked(engine, excluded, rows, recs[k]) && i < |rows|
    ensures SharesSlot(recs[k], CloseWhere(rows, ClosedByAny(engine, excluded, recs))[i])
            <==> SharesSlot(recs[k], rows[i]) && rows[i].memoryType != recs[k].memoryType
  {
    var closing := ClosedByAny(engine, excluded, recs);
    if SharesSlot(recs[k], rows[i]) {
      assert rows[i].id != recs[k].id;
      if rows[i].memoryType == recs[k].memoryType {
        assert IsCandidate(excluded, recs[k], rows[i]);
        assert ClosedBy(engine, excluded, recs[k])(rows[i]);
        assert closing(rows[i]);
      }
    }
  }

  /** The index holds after every insert. */
  ghost predicate InsertsStayUnique(rows: seq<Row>, recs: seq<Row>) {
    forall q :: 0 <= q <= |recs| ==> UniqueSlots(rows + recs[..q])
  }

  lemma EnteredUnique(rows: seq<Row>, recs: seq<Row>, q: nat)
    requires UniqueSlots(rows) && IsBatch(recs) && q <= |recs|
    requires forall i, k :: 0 <= i < |rows| && 0 <= k < |recs| ==> !SharesSlot(recs[k], rows[i])
    ensures UniqueSlots(rows + recs[..q])
  {
    var all, n := rows + recs[..q], |rows|;
    forall i, j | 0 <= i < j < |all|
      ensures !SameSlot(all[i], all[j])
    {
      if j < n {
        assert all[i] == rows[i] && all[j] == rows[j];
      } else if i < n {
        assert all[i] == rows[i] && all[j] == recs[j - n] && !SharesSlot(recs[j - n], rows[i]);
      } else {
        assert all[i] == recs[i - n] && all[j] == recs[j - n];
      }
    }
  }

  lemma EntryRefused(rows: seq<Row>, recs: seq<Row>, i: nat, k: nat)
    requires i < |rows| && k < |recs| && recs[k].current && SharesSlot(recs[k], rows[i])
    ensures !UniqueSlots(rows + recs[..k + 1])
  {
    var all := rows + recs[..k + 1];
    assert all[i] == rows[i] && all[|rows| + k] == recs[k];
    assert SameSlot(all[i], all[|rows| + k]);
  }

  /** On a table whose index holds, the planned records enter one by one with the
      index holding throughout exactly when no kept record's slot is held by a row
      of another memory type. */
  lemma InsertsExactly(engine: Engine, excluded: set<nat>, rows: seq<Row>, recs: seq<Row>)
    requires UniqueIds(rows) && UniqueSlots(rows) && IsBatch(recs) && AreFresh(rows, excluded, recs)
    ensures
      var kept := KeptRecords(recs, BlockedIds(engine, excluded, rows, recs));
      InsertsStayUnique(CloseWhere(rows, ClosedByAny(engine, excluded, recs)), kept)
      <==> forall k :: 0 <= k < |kept| ==> !HeldByOtherType(rows, kept[k])
  {
    var blocked := BlockedIds(engine, excluded, rows, recs);
    var kept, closed := KeptRecords(recs, blocked), CloseWhere(rows, ClosedByAny(engine, excluded, recs));
    KeptIsBatch(recs, blocked);
    ClosedStaysUnique(rows, ClosedByAny(engine, excluded, recs));
    forall i, k | 0 <= i < |rows| && 0 <= k < |kept|
      ensures SharesSlot(kept[k], closed[i])
              <==> SharesSlot(kept[k], rows[i]) && rows[i].memoryType != kept[k].memoryType
    {
      hide SharesSlot, IsBlocked, BlockedIds, KeptRecords, ClosedByAny, CloseWhere;
      KeptFrom(recs, blocked, kept[k]);
      var j :| 0 <= j < |recs| && recs[j] == kept[k];
      NamedIsBlocked(engine, excluded, rows, recs, j);
      HeldAfterPlan(engine, excluded, rows, recs, j, i);
    }
    EntersExactly(rows, closed, kept);
  }

  lemma EntersExactly(rows: seq<Row>, closed: seq<Row>, kept: seq<Row>)
    requires |closed| == |rows| && UniqueSlots(closed) && IsBatch(kept)
    requires forall i, k :: 0 <= i < |rows| && 0 <= k < |kept| ==>
      (SharesSlot(kept[k], closed[i]) <==> SharesSlot(kept[k], rows[i]) && rows[i].memoryType != kept[k].memoryType)
    ensures InsertsStayUnique(closed, kept) <==> forall k :: 0 <= k < |kept| ==> !HeldByOtherType(rows, kept[k])
  {
    hide SharesSlot, UniqueSlots;
    if forall k :: 0 <= k < |kept| ==> !HeldByOtherType(rows, kept[k]) {
      forall q | 0 <= q <= |kept|
        ensures UniqueSlots(closed + kept[..q])
      {
        EnteredUnique(closed, kept, q);
      }
    } else {
      var k :| 0 <= k < |kept| && HeldByOtherType(rows, kept[k]);
      var i :| 0 <= i < |rows| && SharesSlot(kept[k], rows[i]) && rows[i].memoryType != kept[k].memoryType;
      EntryRefused(closed, kept, i, k);
    }
  }

  /** No run leaves a slot empty: whatever held one before, something holds it
      after. */
  lemma NoSlotVacated(engine: Engine, excluded: set<nat>, rows: seq<Row>, recs: seq<Row>, i: nat) returns (j: nat)
    requires UniqueSlots(rows) && IsBatch(recs)
    requires i < |rows| && rows[i].current && rows[i].key.Some?
    ensures
      var after := CloseWhere(rows, ClosedByAny(engine, excluded, recs))
                   + KeptRecords(recs, BlockedIds(engine, excluded, rows, recs));
      j < |after| && SameSlot(rows[i], after[j])
  {
    var closing, blocked := ClosedByAny(engine, excluded, recs), BlockedIds(engine, excluded, rows, recs);
    var closed, kept := CloseWhere(rows, closing), KeptRecords(recs, blocked);
    if !closing(rows[i]) {
      j := i;
    } else {
      var k :| 0 <= k < |recs| && ClosedBy(engine, excluded, recs[k])(rows[i]);
      if IsBlocked(engine, excluded, rows, recs[k]) {
        BlockedClosesNothing(engine, excluded, rows, recs[k], i);
        assert false;
      }
      NamedIsBlocked(engine, excluded, rows, recs, k);
      KeptFrom(recs, blocked, recs[k]);
      var at :| 0 <= at < |kept| && kept[at] == recs[k];
      j := |closed| + at;
      assert (closed + kept)[j] == recs[k];
    }
  }

  lemma InsertsNext(rows: seq<Row>, recs: seq<Row>, k: nat)
    requires k < |recs| && InsertsStayUnique(rows, recs[..k])
    ensures InsertsStayUnique(rows, recs[..k + 1]) <==> UniqueSlots(rows + recs[..k + 1])
  {
    hide UniqueSlots;
    var before, after := recs[..k], recs[..k + 1];
    assert after[..k + 1] == after;
    forall q | 0 <= q <= |after|
      ensures UniqueSlots(rows + after) ==> UniqueSlots(rows + after[..q])
    {
      assert q <= k ==> after[..q] == before[..q];
    }
  }

  /** Inserting the records, rolled back when the index rejects one. */
  method InsertAll(store: MemoryStore, recs: seq<Row>) returns (outcome: Outcome)
    requires UniqueSlots(store.rows)
    modifies store`rows
    ensures outcome == Returned <==> InsertsStayUnique(old(store.rows), recs)
    ensures store.rows == if outcome == Returned then old(store.rows) + recs else store.committed
  {
    for k := 0 to |recs|
      invariant store.rows == old(store.rows) + recs[..k]
      invariant InsertsStayUnique(old(store.rows), recs[..k])
    {
      assert store.rows + [recs[k]] == old(store.rows) + recs[..k + 1];
      InsertsNext(old(store.rows), recs, k);
      var ok := store.Insert(recs[k]);
      if !ok {
        store.RollBack();
        return IndexViolated;
      }
    }
    assert recs[..|recs|] == recs;
    outcome := Returned;
  }
}
