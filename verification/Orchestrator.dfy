/** Stages three to five of ingestion: fold the batch, plan its supersessions,
    drop what cannot enter its slot, and insert the rest. */
module Orchestrator {
  import opened Attempts
  import opened MemoryTable
  import opened Batch
  import opened BatchFates
  import opened Supersession
  import opened Insertion

  /** A memory with the identifier of the record made for it. */
  type Pair = (nat, Extracted)

  function Record(s: Setting, p: Pair): Row {
    Row(p.0, s.organization, s.user, p.1.memoryType, Some(s.slotKey(p.1)), true, p.1.structured)
  }

  function Records(s: Setting, pairs: seq<Pair>): (r: seq<Row>)
    ensures |r| == |pairs|
    ensures forall i :: 0 <= i < |pairs| ==> r[i] == Record(s, pairs[i])
  {
    seq(|pairs|, i requires 0 <= i < |pairs| => Record(s, pairs[i]))
  }

  function Ids(pairs: seq<Pair>): set<nat> {
    set i | 0 <= i < |pairs| :: pairs[i].0
  }

  function Memories(pairs: seq<Pair>): (r: seq<Extracted>)
    ensures |r| == |pairs|
    ensures forall i :: 0 <= i < |pairs| ==> r[i] == pairs[i].1
  {
    seq(|pairs|, i requires 0 <= i < |pairs| => pairs[i].1)
  }

  function Pairs(valid: seq<Extracted>, newId: nat -> nat): (r: seq<Pair>)
    ensures |r| == |valid|
    ensures forall i :: 0 <= i < |valid| ==> r[i] == (newId(i), valid[i])
  {
    seq(|valid|, i requires 0 <= i < |valid| => (newId(i), valid[i]))
  }

  /** New identifiers, each new and in no row. */
  ghost predicate AreNew(newId: nat -> nat, rows: seq<Row>) {
    && (forall i, j :: newId(i) == newId(j) ==> i == j)
    && (forall i, k :: 0 <= k < |rows| ==> rows[k].id != newId(i))
  }

  /** The records made for a batch, with their memories. */
  function Planned(s: Setting, ms: seq<Extracted>, verdicts: nat -> Verdict, newId: nat -> nat): seq<Pair> {
    Pairs(Valid(s, ms, verdicts, |ms|), newId)
  }

  // ---- dropping the blocked ------------------------------------------------

  function Kept(pairs: seq<Pair>, blocked: set<nat>): seq<Pair> {
    if pairs == [] then []
    else
      var last := pairs[|pairs| - 1];
      Kept(pairs[..|pairs| - 1], blocked) + if last.0 in blocked then [] else [last]
  }

  function Dropped(pairs: seq<Pair>, blocked: set<nat>): seq<Detail> {
    if pairs == [] then []
    else
      var last := pairs[|pairs| - 1];
      Dropped(pairs[..|pairs| - 1], blocked) + if last.0 in blocked then [Detail(SlotOccupied, last.1)] else []
  }

  /** The records and the pairs are filtered alike. */
  lemma {:induction false} KeptAlike(s: Setting, pairs: seq<Pair>, blocked: set<nat>)
    ensures KeptRecords(Records(s, pairs), blocked) == Records(s, Kept(pairs, blocked))
  {
    if pairs != [] {
      var n := |pairs| - 1;
      KeptAlike(s, pairs[..n], blocked);
      assert Records(s, pairs)[..n] == Records(s, pairs[..n]);
      var before := Kept(pairs[..n], blocked);
      assert Records(s, before + [pairs[n]]) == Records(s, before) + [Record(s, pairs[n])];
      assert Kept(pairs[..n], blocked) + [] == Kept(pairs[..n], blocked);
    }
  }

  lemma {:induction false} KeptMembers(pairs: seq<Pair>, blocked: set<nat>, p: Pair)
    ensures p in Kept(pairs, blocked) <==> p in pairs && p.0 !in blocked
  {
    if pairs != [] {
      var n := |pairs| - 1;
      KeptMembers(pairs[..n], blocked, p);
      assert pairs == pairs[..n] + [pairs[n]];
    }
  }

  lemma MemoriesAdded(pairs: seq<Pair>, p: Pair)
    ensures Memories(pairs + [p]) == Memories(pairs) + [p.1]
  {
  }

  lemma SubjectsAdded(details: seq<Detail>, d: Detail)
    ensures Subjects(details + [d]) == Subjects(details) + [d.memory]
  {
  }

  lemma OneMoreKept(dropped: seq<Extracted>, kept: seq<Extracted>, before: seq<Extracted>, m: Extracted)
    requires multiset(dropped) + multiset(kept) == multiset(before)
    ensures multiset(dropped + [m]) + multiset(kept) == multiset(before + [m])
    ensures multiset(dropped) + multiset(kept + [m]) == multiset(before + [m])
  {
  }

  /** Every planned memory is dropped with an entry or kept, once. */
  lemma {:induction false} DroppedOrKept(pairs: seq<Pair>, blocked: set<nat>)
    ensures multiset(Subjects(Dropped(pairs, blocked))) + multiset(Memories(Kept(pairs, blocked)))
            == multiset(Memories(pairs))
    ensures |Dropped(pairs, blocked)| + |Kept(pairs, blocked)| == |pairs|
  {
    hide Subjects, Memories;
    if pairs == [] {
      assert Subjects([]) == [] && Memories([]) == [];
    } else {
      var n := |pairs| - 1;
      var dropped, kept, last := Dropped(pairs[..n], blocked), Kept(pairs[..n], blocked), pairs[n];
      DroppedOrKept(pairs[..n], blocked);
      OneMoreKept(Subjects(dropped), Memories(kept), Memories(pairs[..n]), last.1);
      assert pairs == pairs[..n] + [last];
      MemoriesAdded(pairs[..n], last);
      if last.0 in blocked {
        assert Kept(pairs, blocked) == kept;
        SubjectsAdded(dropped, Detail(SlotOccupied, last.1));
      } else {
        assert Dropped(pairs, blocked) == dropped;
        MemoriesAdded(kept, last);
      }
    }
  }

  lemma PairsAreBatch(s: Setting, valid: seq<Extracted>, newId: nat -> nat, rows: seq<Row>)
    requires SlotsDiffer(s, valid) && AreNew(newId, rows)
    ensures IsBatch(Records(s, Pairs(valid, newId)))
  {
    var pairs := Pairs(valid, newId);
    var recs := Records(s, pairs);
    forall a, b | 0 <= a < b < |recs|
      ensures recs[a].id != recs[b].id && recs[a].key != recs[b].key
    {
      assert recs[a] == Record(s, pairs[a]) && recs[b] == Record(s, pairs[b]);
      assert s.slotKey(valid[a]) != s.slotKey(valid[b]);
    }
  }

  // ---- every memory is accounted for ---------------------------------------

  function StoredEntries(pairs: seq<Pair>): (r: seq<Detail>)
    ensures |r| == |pairs|
    ensures forall i :: 0 <= i < |pairs| ==> r[i] == Detail(Stored, pairs[i].1)
  {
    seq(|pairs|, i requires 0 <= i < |pairs| => Detail(Stored, pairs[i].1))
  }

  lemma SubjectsOfBoth(a: seq<Detail>, b: seq<Detail>)
    ensures Subjects(a + b) == Subjects(a) + Subjects(b)
  {
  }

  /** The three kinds of entry together name every memory once. */
  lemma EntriesCover(s: Setting, ms: seq<Extracted>, verdicts: nat -> Verdict, newId: nat -> nat, blocked: set<nat>)
    ensures
      var pairs := Pairs(Valid(s, ms, verdicts, |ms|), newId);
      var entries := Folded(s, ms, verdicts, |ms|) + Dropped(pairs, blocked) + StoredEntries(Kept(pairs, blocked));
      multiset(Subjects(entries)) == multiset(ms) && |entries| == |ms|
  {
    var valid := Valid(s, ms, verdicts, |ms|);
    var pairs := Pairs(valid, newId);
    var folded, dropped, kept := Folded(s, ms, verdicts, |ms|), Dropped(pairs, blocked), Kept(pairs, blocked);
    FoldedOrValid(s, ms, verdicts, |ms|);
    DroppedOrKept(pairs, blocked);
    assert ms[..|ms|] == ms && Memories(pairs) == valid && Subjects(StoredEntries(kept)) == Memories(kept);
    SubjectsOfBoth(folded, dropped);
    SubjectsOfBoth(folded + dropped, StoredEntries(kept));
  }

  lemma {:induction false} TakenAll(details: seq<Detail>)
    ensures Taken(details, MergedInBatch) + Taken(details, Merged) + Taken(details, Discarded)
            + Taken(details, SlotOccupied) + Taken(details, Stored) == |details|
  {
    if details != [] {
      TakenAll(details[..|details| - 1]);
    }
  }

  lemma {:induction false} DroppedKind(pairs: seq<Pair>, blocked: set<nat>)
    ensures forall k :: 0 <= k < |Dropped(pairs, blocked)| ==> Dropped(pairs, blocked)[k].action == SlotOccupied
  {
    if pairs != [] {
      DroppedKind(pairs[..|pairs| - 1], blocked);
    }
  }

  predicate IdsDiffer(pairs: seq<Pair>) {
    forall a, b :: 0 <= a < b < |pairs| ==> pairs[a].0 != pairs[b].0
  }

  /** Each blocked record has one entry. */
  lemma {:induction false} DroppedCount(pairs: seq<Pair>, blocked: set<nat>)
    requires IdsDiffer(pairs)
    ensures |Dropped(pairs, blocked)| == |blocked * Ids(pairs)|
  {
    if pairs == [] {
      assert blocked * Ids(pairs) == {};
    } else {
      var n := |pairs| - 1;
      IdsNext(pairs);
      assert IdsDiffer(pairs[..n]);
      hide Ids, IdsDiffer;
      DroppedCount(pairs[..n], blocked);
      OneMoreId(blocked, Ids(pairs[..n]), pairs[n].0);
    }
  }

  lemma OneMoreId(blocked: set<nat>, ids: set<nat>, id: nat)
    requires id !in ids
    ensures |blocked * (ids + {id})| == |blocked * ids| + if id in blocked then 1 else 0
  {
    assert blocked * (ids + {id}) == (blocked * ids) + if id in blocked then {id} else {};
  }

  lemma IdsNext(pairs: seq<Pair>)
    requires pairs != [] && IdsDiffer(pairs)
    ensures
      var n := |pairs| - 1;
      Ids(pairs) == Ids(pairs[..n]) + {pairs[n].0} && pairs[n].0 !in Ids(pairs[..n])
  {
    var n := |pairs| - 1;
    assert pairs == pairs[..n] + [pairs[n]];
    forall id | id in Ids(pairs[..n]) + {pairs[n].0}
      ensures id in Ids(pairs)
    {
      var k :| 0 <= k <= n && pairs[k].0 == id;
    }
  }

  /** The counts of a run in terms of the deduplicator's word and of the plan. */
  predicate CountsRun(s: Setting, ms: seq<Extracted>, verdicts: nat -> Verdict, blocked: set<nat>, merged: nat,
                      discarded: nat) {
    && merged == |MergedOnes(s, ms, verdicts, |ms|)|
    && discarded == |DiscardedOnes(s, ms, verdicts, |ms|)| + |blocked|
  }

  lemma RunCounts(s: Setting, ms: seq<Extracted>, verdicts: nat -> Verdict, newId: nat -> nat, blocked: set<nat>)
    requires blocked <= Ids(Planned(s, ms, verdicts, newId)) && IdsDiffer(Planned(s, ms, verdicts, newId))
    ensures
      var pairs := Planned(s, ms, verdicts, newId);
      var details := Folded(s, ms, verdicts, |ms|) + Dropped(pairs, blocked) + StoredEntries(Kept(pairs, blocked));
      CountsRun(s, ms, verdicts, blocked, Taken(details, MergedInBatch) + Taken(details, Merged),
                Taken(details, Discarded) + Taken(details, SlotOccupied))
  {
    hide Folded, Dropped, Kept, Planned, Taken, MergedOnes, DiscardedOnes, IdsDiffer, StoredEntries;
    var pairs := Planned(s, ms, verdicts, newId);
    var folded, dropped := Folded(s, ms, verdicts, |ms|), Dropped(pairs, blocked);
    var stored := StoredEntries(Kept(pairs, blocked));
    FoldedCounts(s, ms, verdicts, |ms|);
    DroppedKind(pairs, blocked);
    DroppedCount(pairs, blocked);
    assert blocked * Ids(pairs) == blocked;
    forall action | action != Stored
      ensures Taken(folded + dropped + stored, action)
              == Taken(folded, action) + if action == SlotOccupied then |dropped| else 0
    {
      TakenOfBoth(folded + dropped, stored, action);
      TakenOfBoth(folded, dropped, action);
      TakenOfOne(dropped, SlotOccupied, action);
      TakenOfOne(stored, Stored, action);
    }
  }

  lemma RunAccounts(result: OrchestrationResult, s: Setting, ms: seq<Extracted>, verdicts: nat -> Verdict,
                    newId: nat -> nat, blocked: set<nat>)
    requires result.Counts() && result.extracted == |ms| && result.stored == Taken(result.details, Stored)
    requires var pairs := Planned(s, ms, verdicts, newId);
      result.details == Folded(s, ms, verdicts, |ms|) + Dropped(pairs, blocked) + StoredEntries(Kept(pairs, blocked))
    ensures result.Accounts(ms)
    ensures blocked <= Ids(Planned(s, ms, verdicts, newId)) && IdsDiffer(Planned(s, ms, verdicts, newId)) ==>
      CountsRun(s, ms, verdicts, blocked, result.merged, result.discarded)
  {
    hide Folded, Dropped, StoredEntries, Kept, Subjects, Taken, IdsDiffer, Ids, CountsRun;
    EntriesCover(s, ms, verdicts, newId, blocked);
    TakenAll(result.details);
    if blocked <= Ids(Planned(s, ms, verdicts, newId)) && IdsDiffer(Planned(s, ms, verdicts, newId)) {
      RunCounts(s, ms, verdicts, newId, blocked);
    }
  }

  /** The entries of the dropped records. */
  method NoteDropped(result: OrchestrationResult, pairs: seq<Pair>, blocked: set<nat>)
    requires result.Counts()
    modifies result`merged, result`discarded, result`details
    ensures result.Counts() && result.details == old(result.details) + Dropped(pairs, blocked)
    ensures Taken(result.details, Stored) == old(Taken(result.details, Stored))
  {
    for k := 0 to |pairs|
      invariant result.Counts() && result.details == old(result.details) + Dropped(pairs[..k], blocked)
      invariant Taken(result.details, Stored) == old(Taken(result.details, Stored))
    {
      assert pairs[..k + 1][..k] == pairs[..k];
      if pairs[k].0 in blocked {
        result.Note(SlotOccupied, pairs[k].1);
      }
    }
    assert pairs[..|pairs|] == pairs;
  }

  lemma StoredEntriesNext(pairs: seq<Pair>, k: nat)
    requires k < |pairs|
    ensures StoredEntries(pairs[..k + 1]) == StoredEntries(pairs[..k]) + [Detail(Stored, pairs[k].1)]
  {
  }

  /** The entries of the stored records, and their number. */
  method NoteStored(result: OrchestrationResult, pairs: seq<Pair>)
    requires result.Counts() && Taken(result.details, Stored) == 0
    modifies result`merged, result`discarded, result`details, result`stored
    ensures result.Counts() && result.details == old(result.details) + StoredEntries(pairs)
    ensures result.stored == |pairs| == Taken(result.details, Stored)
  {
    for k := 0 to |pairs|
      invariant result.Counts() && result.details == old(result.details) + StoredEntries(pairs[..k])
      invariant Taken(result.details, Stored) == k
    {
      StoredEntriesNext(pairs, k);
      result.Note(Stored, pairs[k].1);
    }
    assert pairs[..|pairs|] == pairs;
    result.stored := |pairs|;
  }

  // ---- the run -------------------------------------------------------------

  /** Those the plan leaves. */
  function KeptPairs(engine: Engine, rows: seq<Row>, s: Setting, pairs: seq<Pair>): seq<Pair> {
    Kept(pairs, BlockedIds(engine, Ids(pairs), rows, Records(s, pairs)))
  }

  /** The table after a run that is not refused. */
  function Ingested(engine: Engine, rows: seq<Row>, s: Setting, pairs: seq<Pair>): seq<Row> {
    CloseWhere(rows, ClosedByAny(engine, Ids(pairs), Records(s, pairs))) + Records(s, KeptPairs(engine, rows, s, pairs))
  }

  // ---- when a run is refused -----------------------------------------------

  /** A current row of another memory type holds the slot the memory names. */
  predicate NamesHeldSlot(s: Setting, rows: seq<Row>, m: Extracted) {
    exists i :: 0 <= i < |rows| && rows[i].current && rows[i].organization == s.organization && rows[i].user == s.user
                && rows[i].key == Some(s.slotKey(m)) && rows[i].memoryType != m.memoryType
  }

  /** Some memory left to store does. */
  predicate IsRefused(s: Setting, rows: seq<Row>, valid: seq<Extracted>) {
    exists a :: 0 <= a < |valid| && NamesHeldSlot(s, rows, valid[a])
  }

  lemma HeldIsNamed(s: Setting, rows: seq<Row>, p: Pair)
    ensures HeldByOtherType(rows, Record(s, p)) <==> NamesHeldSlot(s, rows, p.1)
  {
    var rec := Record(s, p);
    if HeldByOtherType(rows, rec) {
      var i :| 0 <= i < |rows| && SharesSlot(rec, rows[i]) && rows[i].memoryType != rec.memoryType;
    }
    if NamesHeldSlot(s, rows, p.1) {
      var i :| 0 <= i < |rows| && rows[i].current && rows[i].organization == s.organization && rows[i].user == s.user
               && rows[i].key == Some(s.slotKey(p.1)) && rows[i].memoryType != p.1.memoryType;
      assert SharesSlot(rec, rows[i]);
    }
  }

  /** The index ignores the memory type and the plan does not: on any table whose
      index holds, a memory whose slot is held under another type is never blocked,
      whatever the engine decides, and so is kept to be inserted. */
  lemma OtherTypeIsKept(engine: Engine, rows: seq<Row>, s: Setting, pairs: seq<Pair>, k: nat)
    requires UniqueSlots(rows) && IsBatch(Records(s, pairs)) && k < |pairs|
    requires NamesHeldSlot(s, rows, pairs[k].1)
    ensures !IsBlocked(engine, Ids(pairs), rows, Records(s, pairs)[k])
    ensures pairs[k] in KeptPairs(engine, rows, s, pairs)
  {
    hide UniqueSlots, IsBlocked, NamesHeldSlot, BlockedIds, Kept, HeldByOtherType;
    HeldIsNamed(s, rows, pairs[k]);
    HeldIsUnblocked(engine, Ids(pairs), rows, Records(s, pairs)[k]);
    NamedIsBlocked(engine, Ids(pairs), rows, Records(s, pairs), k);
    KeptMembers(pairs, BlockedIds(engine, Ids(pairs), rows, Records(s, pairs)), pairs[k]);
  }

  /** So a kept record meets a slot held under another type exactly when some
      memory left to store names one: the engine has no say. */
  lemma RefusalIsEngineFree(engine: Engine, rows: seq<Row>, s: Setting, pairs: seq<Pair>)
    requires UniqueSlots(rows) && IsBatch(Records(s, pairs))
    ensures (forall k :: 0 <= k < |KeptPairs(engine, rows, s, pairs)| ==>
              !HeldByOtherType(rows, Records(s, KeptPairs(engine, rows, s, pairs))[k]))
            <==> !IsRefused(s, rows, Memories(pairs))
  {
    hide UniqueSlots, IsBatch, NamesHeldSlot, KeptPairs, HeldByOtherType;
    var kept := KeptPairs(engine, rows, s, pairs);
    if k :| 0 <= k < |kept| && HeldByOtherType(rows, Records(s, kept)[k]) {
      HeldIsNamed(s, rows, kept[k]);
      var at := KeptFromPairs(engine, rows, s, pairs, k);
      assert NamesHeldSlot(s, rows, Memories(pairs)[at]);
    }
    if IsRefused(s, rows, Memories(pairs)) {
      var a :| 0 <= a < |pairs| && NamesHeldSlot(s, rows, Memories(pairs)[a]);
      OtherTypeIsKept(engine, rows, s, pairs, a);
      var k :| 0 <= k < |kept| && kept[k] == pairs[a];
      HeldIsNamed(s, rows, kept[k]);
      assert HeldByOtherType(rows, Records(s, kept)[k]);
    }
  }

  lemma KeptFromPairs(engine: Engine, rows: seq<Row>, s: Setting, pairs: seq<Pair>, k: nat) returns (at: nat)
    requires k < |KeptPairs(engine, rows, s, pairs)|
    ensures at < |pairs| && pairs[at] == KeptPairs(engine, rows, s, pairs)[k]
  {
    hide Kept, BlockedIds;
    var p := KeptPairs(engine, rows, s, pairs)[k];
    KeptMembers(pairs, BlockedIds(engine, Ids(pairs), rows, Records(s, pairs)), p);
    at :| 0 <= at < |pairs| && pairs[at] == p;
  }

  lemma BlockedArePlanned(engine: Engine, rows: seq<Row>, s: Setting, pairs: seq<Pair>)
    ensures BlockedIds(engine, Ids(pairs), rows, Records(s, pairs)) <= Ids(pairs)
  {
    hide IsBlocked;
  }

  lemma PlannedDiffer(s: Setting, ms: seq<Extracted>, verdicts: nat -> Verdict, newId: nat -> nat, rows: seq<Row>)
    requires AreNew(newId, rows)
    ensures IdsDiffer(Planned(s, ms, verdicts, newId))
  {
    hide Valid;
  }

  lemma PlannedAreFresh(s: Setting, ms: seq<Extracted>, verdicts: nat -> Verdict, newId: nat -> nat, rows: seq<Row>)
    requires AreNew(newId, rows)
    ensures var pairs := Planned(s, ms, verdicts, newId);
      IsBatch(Records(s, pairs)) && AreFresh(rows, Ids(pairs), Records(s, pairs))
  {
    hide IsBatch, SlotsDiffer;
    var pairs := Planned(s, ms, verdicts, newId);
    ValidSlotsDiffer(s, ms, verdicts, |ms|);
    PairsAreBatch(s, Valid(s, ms, verdicts, |ms|), newId, rows);
    forall i | 0 <= i < |rows|
      ensures rows[i].id !in Ids(pairs)
    {
    }
    forall k | 0 <= k < |pairs|
      ensures Records(s, pairs)[k].id in Ids(pairs)
    {
      assert pairs[k].0 in Ids(pairs);
    }
  }

  /** A table that is not refused satisfies both constraints. */
  lemma IngestedIsSound(engine: Engine, rows: seq<Row>, s: Setting, pairs: seq<Pair>)
    requires UniqueIds(rows) && UniqueSlots(rows)
    requires IsBatch(Records(s, pairs)) && AreFresh(rows, Ids(pairs), Records(s, pairs))
    ensures !IsRefused(s, rows, Memories(pairs)) ==> UniqueSlots(Ingested(engine, rows, s, pairs))
    ensures UniqueIds(Ingested(engine, rows, s, pairs))
  {
    hide IsRefused, HeldByOtherType, UniqueSlots, IsBatch, Memories, CloseWhere, KeptRecords, AreFresh, UniqueIds;
    var recs := Records(s, pairs);
    var blocked := BlockedIds(engine, Ids(pairs), rows, recs);
    var closed, kept := CloseWhere(rows, ClosedByAny(engine, Ids(pairs), recs)), KeptRecords(recs, blocked);
    KeptAlike(s, pairs, blocked);
    RefusalIsEngineFree(engine, rows, s, pairs);
    InsertsExactly(engine, Ids(pairs), rows, recs);
    assert kept[..|kept|] == kept;
    KeptIdsDiffer(rows, closed, recs, blocked, Ids(pairs));
  }

  lemma KeptIdsDiffer(rows: seq<Row>, closed: seq<Row>, recs: seq<Row>, blocked: set<nat>, excluded: set<nat>)
    requires UniqueIds(rows) && IsBatch(recs) && AreFresh(rows, excluded, recs)
    requires |closed| == |rows| && forall i :: 0 <= i < |rows| ==> closed[i].id == rows[i].id
    ensures UniqueIds(closed + KeptRecords(recs, blocked))
  {
    hide KeptRecords;
    var kept := KeptRecords(recs, blocked);
    KeptIsBatch(recs, blocked);
    forall a, b | 0 <= a < b < |closed + kept|
      ensures (closed + kept)[a].id != (closed + kept)[b].id
    {
      if a < |closed| <= b {
        KeptFrom(recs, blocked, kept[b - |closed|]);
        var k :| 0 <= k < |recs| && recs[k] == kept[b - |closed|];
        assert rows[a].id !in excluded && recs[k].id in excluded;
      }
    }
  }

  /** Planning and inserting the records of a batch. */
  method Store(store: MemoryStore, s: Setting, engine: Engine, pairs: seq<Pair>, result: OrchestrationResult)
      returns (outcome: Outcome, graph: seq<Pair>)
    requires UniqueIds(store.rows) && UniqueSlots(store.rows) && store.committed == store.rows
    requires IsBatch(Records(s, pairs)) && AreFresh(store.rows, Ids(pairs), Records(s, pairs))
    requires result.Counts() && Taken(result.details, Stored) == 0 && result.stored == 0
    modifies store, result`merged, result`discarded, result`details, result`stored
    ensures graph == KeptPairs(engine, old(store.rows), s, pairs)
    ensures outcome == Returned <==> !IsRefused(s, old(store.rows), Memories(pairs))
    ensures store.rows == if outcome == Returned then Ingested(engine, old(store.rows), s, pairs) else old(store.rows)
    ensures store.committed == old(store.rows)
    ensures outcome == Returned ==> result.Counts() && result.stored == |graph| == Taken(result.details, Stored)
    ensures outcome == Returned ==>
      result.details == old(result.details)
                        + Dropped(pairs, BlockedIds(engine, Ids(pairs), old(store.rows), Records(s, pairs)))
                        + StoredEntries(graph)
  {
    var recs := Records(s, pairs);
    ghost var was := store.rows;
    InsertsExactly(engine, Ids(pairs), was, recs);
    RefusalIsEngineFree(engine, was, s, pairs);
    ClosedStaysUnique(was, ClosedByAny(engine, Ids(pairs), recs));
    var blocked := PlanAll(store, engine, Ids(pairs), recs);
    KeptAlike(s, pairs, blocked);
    var keptRecs := KeptRecords(recs, blocked);
    graph := Kept(pairs, blocked);
    NoteDropped(result, pairs, blocked);
    if keptRecs == [] {
      assert store.rows == Ingested(engine, was, s, pairs);
      return Returned, graph;
    }
    outcome := InsertAll(store, keptRecs);
    if outcome == Returned {
      NoteStored(result, graph);
    }
  }

  lemma NothingPlanned(engine: Engine, rows: seq<Row>, s: Setting, pairs: seq<Pair>)
    requires pairs == []
    ensures KeptPairs(engine, rows, s, pairs) == [] && Ingested(engine, rows, s, pairs) == rows
    ensures BlockedIds(engine, Ids(pairs), rows, Records(s, pairs)) == {} && !IsRefused(s, rows, Memories(pairs))
  {
    NoneClosed(rows, ClosedByAny(engine, Ids(pairs), Records(s, pairs)));
  }

  /** A run over one extraction. The index, if it held, holds whatever happens;
      the run is refused exactly when a memory left to store names a slot held by
      a current row of another type; otherwise the table is the planned one,
      the graph is built for exactly the rows inserted, and every extracted
      memory is accounted for: merged when it does not open its slot or the
      deduplicator merges it, discarded when it opens it and is discarded or is
      blocked, and otherwise stored. */
  method Orchestrate(store: MemoryStore, s: Setting, ms: seq<Extracted>, verdicts: nat -> Verdict, engine: Engine,
                     newId: nat -> nat)
      returns (outcome: Outcome, result: OrchestrationResult, graph: seq<Pair>)
    requires UniqueIds(store.rows) && UniqueSlots(store.rows) && store.committed == store.rows
    requires AreNew(newId, store.rows)
    modifies store
    ensures fresh(result)
    ensures graph == KeptPairs(engine, old(store.rows), s, Planned(s, ms, verdicts, newId))
    ensures outcome == Returned <==> !IsRefused(s, old(store.rows), Valid(s, ms, verdicts, |ms|))
    ensures store.rows == if outcome == Returned
                          then Ingested(engine, old(store.rows), s, Planned(s, ms, verdicts, newId))
                          else old(store.rows)
    ensures UniqueIds(store.rows) && UniqueSlots(store.rows)
    ensures outcome == Returned ==> result.Accounts(ms) && result.stored == |graph|
    ensures outcome == Returned ==>
      var pairs := Planned(s, ms, verdicts, newId);
      result.details == Folded(s, ms, verdicts, |ms|)
                        + Dropped(pairs, BlockedIds(engine, Ids(pairs), old(store.rows), Records(s, pairs)))
                        + StoredEntries(graph)
    ensures outcome == Returned ==>
      var pairs := Planned(s, ms, verdicts, newId);
      CountsRun(s, ms, verdicts, BlockedIds(engine, Ids(pairs), old(store.rows), Records(s, pairs)), result.merged,
                result.discarded)
  {
    hide CloseWhere, BlockedIds, Folded, CountsRun, Ingested, Kept, IsRefused, IsBatch, AreFresh, IdsDiffer, Ids,
         Records, UniqueIds, UniqueSlots, Taken, OrchestrationResult.Counts, OrchestrationResult.Accounts, AreNew;
    PlannedDiffer(s, ms, verdicts, newId, store.rows);
    result := new OrchestrationResult();
    result.extracted := |ms|;
    var valid := FoldBatch(s, ms, verdicts, result);
    var pairs := Pairs(valid, newId);
    assert Memories(pairs) == valid;
    if valid == [] {
      NothingPlanned(engine, store.rows, s, pairs);
      RunAccounts(result, s, ms, verdicts, newId, {});
      return Returned, result, [];
    }
    PlannedAreFresh(s, ms, verdicts, newId, store.rows);
    IngestedIsSound(engine, store.rows, s, pairs);
    ghost var blocked := BlockedIds(engine, Ids(pairs), store.rows, Records(s, pairs));
    BlockedArePlanned(engine, store.rows, s, pairs);
    outcome, graph := Store(store, s, engine, pairs, result);
    if outcome == Returned {
      RunAccounts(result, s, ms, verdicts, newId, blocked);
    }
  }

  /** A run that is not refused leaves no slot empty that was held before. */
  lemma SlotsStayHeld(engine: Engine, rows: seq<Row>, s: Setting, pairs: seq<Pair>, i: nat) returns (j: nat)
    requires UniqueSlots(rows) && IsBatch(Records(s, pairs))
    requires i < |rows| && rows[i].current && rows[i].key.Some?
    ensures j < |Ingested(engine, rows, s, pairs)| && SameSlot(rows[i], Ingested(engine, rows, s, pairs)[j])
  {
    hide SameSlot;
    KeptAlike(s, pairs, BlockedIds(engine, Ids(pairs), rows, Records(s, pairs)));
    j := NoSlotVacated(engine, Ids(pairs), rows, Records(s, pairs), i);
  }
}
