/** Planning a batch: closing the incumbents it replaces, and naming the rows
    whose slot stays held. */
module Supersession {
  import opened MemoryTable

  /** What the engine is told of two rows: the new one's status, whether it
      contradicts the incumbent, and whether it must not close it. */
  datatype Engine = Engine(status: Row -> string, contradicts: (Row, Row) -> bool, refuses: (Row, Row) -> bool)

  const SUPERSEDED := "superseded"

  predicate SharesSlot(rec: Row, row: Row) {
    && row.current && row.organization == rec.organization && row.user == rec.user
    && row.key.Some? && row.key == rec.key
  }

  /** `_candidate_memories`: the slot's current rows of the same type. */
  predicate IsCandidate(excluded: set<nat>, rec: Row, row: Row) {
    SharesSlot(rec, row) && row.memoryType == rec.memoryType && row.id != rec.id && row.id !in excluded
  }

  predicate Closes(engine: Engine, rec: Row, row: Row) {
    engine.status(rec) != SUPERSEDED && engine.contradicts(rec, row) && !engine.refuses(rec, row)
  }

  function ClosedBy(engine: Engine, excluded: set<nat>, rec: Row): Row -> bool {
    (row: Row) => IsCandidate(excluded, rec, row) && Closes(engine, rec, row)
  }

  function ClosedByAny(engine: Engine, excluded: set<nat>, recs: seq<Row>): Row -> bool {
    (row: Row) => exists k :: 0 <= k < |recs| && ClosedBy(engine, excluded, recs[k])(row)
  }

  /** Some candidate stays current. */
  predicate IsBlocked(engine: Engine, excluded: set<nat>, rows: seq<Row>, rec: Row) {
    exists i :: 0 <= i < |rows| && IsCandidate(excluded, rec, rows[i]) && !Closes(engine, rec, rows[i])
  }

  function BlockedIds(engine: Engine, excluded: set<nat>, rows: seq<Row>, recs: seq<Row>): set<nat> {
    set k | 0 <= k < |recs| && IsBlocked(engine, excluded, rows, recs[k]) :: recs[k].id
  }

  /** The records of one batch: current, each with its own identifier and key. */
  predicate IsBatch(recs: seq<Row>) {
    && (forall k :: 0 <= k < |recs| ==> recs[k].current && recs[k].key.Some?)
    && (forall a, b :: 0 <= a < b < |recs| ==> recs[a].id != recs[b].id && recs[a].key != recs[b].key)
  }

  // ---- closing keeps the table's constraints -------------------------------

  lemma ClosedStaysUnique(rows: seq<Row>, p: Row -> bool)
    requires UniqueSlots(rows) && UniqueIds(rows)
    ensures UniqueSlots(CloseWhere(rows, p)) && UniqueIds(CloseWhere(rows, p))
  {
    var closed := CloseWhere(rows, p);
    forall i, j | 0 <= i < j < |rows|
      ensures !SameSlot(closed[i], closed[j]) && closed[i].id != closed[j].id
    {
      assert !SameSlot(rows[i], rows[j]) && rows[i].id != rows[j].id;
    }
  }

  /** A slot has at most one candidate. */
  lemma OneCandidate(excluded: set<nat>, rows: seq<Row>, rec: Row)
    requires UniqueSlots(rows)
    ensures Count(rows, (row: Row) => IsCandidate(excluded, rec, row)) <= 1
    ensures forall i, j ::
      0 <= i < |rows| && 0 <= j < |rows| && SharesSlot(rec, rows[i]) && SharesSlot(rec, rows[j]) ==> i == j
  {
    forall i, j | 0 <= i < j < |rows|
      ensures !(SharesSlot(rec, rows[i]) && SharesSlot(rec, rows[j]))
    {
      assert !SameSlot(rows[i], rows[j]);
    }
    CountTwo(rows, (row: Row) => IsCandidate(excluded, rec, row));
  }

  /** A blocked record therefore closes nothing. */
  lemma BlockedClosesNothing(engine: Engine, excluded: set<nat>, rows: seq<Row>, rec: Row, i: nat)
    requires UniqueSlots(rows) && i < |rows|
    requires IsBlocked(engine, excluded, rows, rec)
    ensures !ClosedBy(engine, excluded, rec)(rows[i])
  {
    OneCandidate(excluded, rows, rec);
  }

  /** The plan closes exactly the rows that some record is to replace: candidates it
      contradicts, that the engine does not refuse to close, for a record that is not
      superseded itself. Nothing else of the table changes. */
  lemma ClosedExactly(engine: Engine, excluded: set<nat>, rows: seq<Row>, recs: seq<Row>, i: nat)
    requires i < |rows|
    ensures
      var after := CloseWhere(rows, ClosedByAny(engine, excluded, recs));
      && |after| == |rows|
      && (after[i] == rows[i] || after[i] == rows[i].(current := false))
      && (after[i] != rows[i] <==>
          exists k :: 0 <= k < |recs| && IsCandidate(excluded, recs[k], rows[i])
                      && engine.status(recs[k]) != "superseded"
                      && engine.contradicts(recs[k], rows[i]) && !engine.refuses(recs[k], rows[i]))
  {
  }

  /** And a record is blocked exactly when it has a candidate that it is not to
      replace. */
  lemma BlockedExactly(engine: Engine, excluded: set<nat>, rows: seq<Row>, rec: Row)
    ensures IsBlocked(engine, excluded, rows, rec) <==>
      exists i :: 0 <= i < |rows| && IsCandidate(excluded, rec, rows[i])
                  && (engine.contradicts(rec, rows[i]) ==>
                        engine.refuses(rec, rows[i]) || engine.status(rec) == "superseded")
  {
    if i :| 0 <= i < |rows| && IsCandidate(excluded, rec, rows[i]) && !Closes(engine, rec, rows[i]) {
    }
  }

  // ---- one record ----------------------------------------------------------

  lemma FoundRow(rows: seq<Row>, found: Row) returns (i: nat)
    requires found in rows
    ensures i < |rows| && rows[i] == found
  {
    i :| 0 <= i < |rows| && rows[i] == found;
  }

  /** Closing the one candidate by its identifier. */
  lemma ClosedById(excluded: set<nat>, rows: seq<Row>, rec: Row, existing: Row, p: Row -> bool)
    requires UniqueIds(rows) && UniqueSlots(rows)
    requires existing in rows && IsCandidate(excluded, rec, existing)
    requires forall row :: p(row) ==> IsCandidate(excluded, rec, row)
    requires p(existing)
    ensures CloseWhere(rows, IsCurrentTarget(existing.organization, existing.id)) == CloseWhere(rows, p)
    ensures Count(rows, IsCurrentTarget(existing.organization, existing.id)) > 0
  {
    var q := IsCurrentTarget(existing.organization, existing.id);
    var at := FoundRow(rows, existing);
    OneCandidate(excluded, rows, rec);
    forall i | 0 <= i < |rows|
      ensures q(rows[i]) == p(rows[i])
    {
      if i != at {
        assert if i < at then rows[i].id != rows[at].id else rows[at].id != rows[i].id;
      }
    }
    CountNone(rows, q);
    assert q(rows[at]);
    assert CloseWhere(rows, q) == CloseWhere(rows, p);
  }

  lemma NoneClosed(rows: seq<Row>, p: Row -> bool)
    requires forall i :: 0 <= i < |rows| ==> !p(rows[i])
    ensures CloseWhere(rows, p) == rows
  {
  }

  /** `_candidate_memories`, on a table whose index holds. */
  method Candidates(store: MemoryStore, excluded: set<nat>, rec: Row) returns (candidates: seq<Row>)
    requires UniqueSlots(store.rows)
    ensures |candidates| <= 1
    ensures forall row :: row in candidates <==> row in store.rows && IsCandidate(excluded, rec, row)
  {
    OneCandidate(excluded, store.rows, rec);
    candidates := store.GetCurrent((row: Row) => IsCandidate(excluded, rec, row));
    assert candidates == Select(store.rows, (row: Row) => IsCandidate(excluded, rec, row));
  }

  /** One round of the closing loop. */
  method CloseCandidate(store: MemoryStore, engine: Engine, excluded: set<nat>, rec: Row, existing: Row)
      returns (closed: bool)
    requires UniqueIds(store.rows) && UniqueSlots(store.rows) && engine.status(rec) != SUPERSEDED
    requires existing in store.rows && IsCandidate(excluded, rec, existing)
    modifies store`rows
    ensures store.rows == CloseWhere(old(store.rows), ClosedBy(engine, excluded, rec))
    ensures closed <==> Closes(engine, rec, existing)
  {
    OneCandidate(excluded, store.rows, rec);
    if !engine.contradicts(rec, existing) || engine.refuses(rec, existing) {
      var at := FoundRow(store.rows, existing);
      NoneClosed(store.rows, ClosedBy(engine, excluded, rec));
      return false;
    }
    ClosedById(excluded, store.rows, rec, existing, ClosedBy(engine, excluded, rec));
    var count := store.SupersedeIfCurrent(existing.organization, existing.id);
    closed := count > 0;
  }

  lemma BlockedByCandidate(engine: Engine, excluded: set<nat>, rows: seq<Row>, rec: Row, candidates: seq<Row>)
    requires |candidates| <= 1
    requires forall row :: row in candidates <==> row in rows && IsCandidate(excluded, rec, row)
    ensures IsBlocked(engine, excluded, rows, rec) <==> candidates != [] && !Closes(engine, rec, candidates[0])
    ensures candidates == [] || engine.status(rec) == SUPERSEDED ==>
      CloseWhere(rows, ClosedBy(engine, excluded, rec)) == rows
  {
    if candidates != [] {
      assert candidates[0] in candidates;
      var i := FoundRow(rows, candidates[0]);
    }
    if candidates == [] || engine.status(rec) == SUPERSEDED {
      assert forall i :: 0 <= i < |rows| ==> rows[i] in rows;
      NoneClosed(rows, ClosedBy(engine, excluded, rec));
    }
  }

  /** `_plan_one`. */
  method PlanOne(store: MemoryStore, engine: Engine, excluded: set<nat>, rec: Row) returns (blocked: bool)
    requires UniqueIds(store.rows) && UniqueSlots(store.rows)
    modifies store`rows
    ensures store.rows == CloseWhere(old(store.rows), ClosedBy(engine, excluded, rec))
    ensures blocked <==> IsBlocked(engine, excluded, old(store.rows), rec)
  {
    var candidates := Candidates(store, excluded, rec);
    BlockedByCandidate(engine, excluded, store.rows, rec, candidates);
    if engine.status(rec) == SUPERSEDED {
      return candidates != [];
    }
    var planned := 0;
    for k := 0 to |candidates|
      invariant k == 0 ==> store.rows == old(store.rows) && planned == 0
      invariant k == 1 ==>
        && store.rows == CloseWhere(old(store.rows), ClosedBy(engine, excluded, rec))
        && planned == if Closes(engine, rec, candidates[0]) then 1 else 0
    {
      assert candidates[k] in candidates;
      var closed := CloseCandidate(store, engine, excluded, rec, candidates[k]);
      if closed {
        planned := planned + 1;
      }
    }
    blocked := candidates != [] && planned < |candidates|;
  }

  // ---- the whole batch -----------------------------------------------------

  /** Records with other keys close nothing of this one's slot. */
  lemma OthersKeepSlot(engine: Engine, excluded: set<nat>, recs: seq<Row>, k: nat, row: Row)
    requires IsBatch(recs) && k < |recs|
    ensures ClosedByAny(engine, excluded, recs[..k])(row) ==> !SharesSlot(recs[k], row)
    ensures ClosedByAny(engine, excluded, recs[..k + 1])(row)
            <==> ClosedByAny(engine, excluded, recs[..k])(row) || ClosedBy(engine, excluded, recs[k])(row)
  {
    var before, after := recs[..k], recs[..k + 1];
    assert forall j :: 0 <= j < k ==> after[j] == before[j] == recs[j] && recs[j].key != recs[k].key;
    assert after[k] == recs[k];
    if ClosedByAny(engine, excluded, after)(row) {
      var j :| 0 <= j < |after| && ClosedBy(engine, excluded, after[j])(row);
      assert j < k ==> ClosedBy(engine, excluded, before[j])(row);
    }
  }

  lemma PlanStep(engine: Engine, excluded: set<nat>, rows: seq<Row>, recs: seq<Row>, k: nat)
    requires IsBatch(recs) && k < |recs|
    ensures
      var now := CloseWhere(rows, ClosedByAny(engine, excluded, recs[..k]));
      && CloseWhere(now, ClosedBy(engine, excluded, recs[k]))
         == CloseWhere(rows, ClosedByAny(engine, excluded, recs[..k + 1]))
      && (IsBlocked(engine, excluded, now, recs[k]) <==> IsBlocked(engine, excluded, rows, recs[k]))
  {
    var closedBefore := ClosedByAny(engine, excluded, recs[..k]);
    var now := CloseWhere(rows, closedBefore);
    var closing := ClosedBy(engine, excluded, recs[k]);
    forall i | 0 <= i < |rows|
      ensures CloseWhere(now, closing)[i] == CloseWhere(rows, ClosedByAny(engine, excluded, recs[..k + 1]))[i]
      ensures IsCandidate(excluded, recs[k], now[i]) <==> IsCandidate(excluded, recs[k], rows[i])
      ensures IsCandidate(excluded, recs[k], rows[i]) ==> now[i] == rows[i]
    {
      OthersKeepSlot(engine, excluded, recs, k, rows[i]);
    }
    SameBlocked(engine, excluded, rows, now, recs[k]);
  }

  lemma SameBlocked(engine: Engine, excluded: set<nat>, rows: seq<Row>, now: seq<Row>, rec: Row)
    requires |now| == |rows|
    requires forall i :: 0 <= i < |rows| ==>
      (IsCandidate(excluded, rec, now[i]) <==> IsCandidate(excluded, rec, rows[i]))
    requires forall i :: 0 <= i < |rows| && IsCandidate(excluded, rec, rows[i]) ==> now[i] == rows[i]
    ensures IsBlocked(engine, excluded, now, rec) <==> IsBlocked(engine, excluded, rows, rec)
  {
    if IsBlocked(engine, excluded, rows, rec) {
      var i :| 0 <= i < |rows| && IsCandidate(excluded, rec, rows[i]) && !Closes(engine, rec, rows[i]);
      assert now[i] == rows[i];
    }
  }

  lemma BlockedNext(engine: Engine, excluded: set<nat>, rows: seq<Row>, recs: seq<Row>, k: nat)
    requires k < |recs|
    ensures BlockedIds(engine, excluded, rows, recs[..k + 1])
            == BlockedIds(engine, excluded, rows, recs[..k])
               + if IsBlocked(engine, excluded, rows, recs[k]) then {recs[k].id} else {}
  {
    hide IsBlocked;
    var before, after := recs[..k], recs[..k + 1];
    assert after == before + [recs[k]];
    forall id | id in BlockedIds(engine, excluded, rows, before)
      ensures id in BlockedIds(engine, excluded, rows, after)
    {
      var j :| 0 <= j < |before| && IsBlocked(engine, excluded, rows, before[j]) && before[j].id == id;
      assert after[j] == before[j];
    }
    if IsBlocked(engine, excluded, rows, recs[k]) {
      assert after[k].id in BlockedIds(engine, excluded, rows, after);
    }
    forall id | id in BlockedIds(engine, excluded, rows, after)
      ensures id in BlockedIds(engine, excluded, rows, before)
              || (IsBlocked(engine, excluded, rows, recs[k]) && id == recs[k].id)
    {
      var j :| 0 <= j < |after| && IsBlocked(engine, excluded, rows, after[j]) && after[j].id == id;
      assert j < k ==> after[j] == before[j];
    }
  }

  /** `plan_all`: the incumbents it may close are closed, and the records whose
      slot is still held are named. */
  method PlanAll(store: MemoryStore, engine: Engine, excluded: set<nat>, recs: seq<Row>) returns (blocked: set<nat>)
    requires UniqueIds(store.rows) && UniqueSlots(store.rows) && IsBatch(recs)
    modifies store`rows
    ensures store.rows == CloseWhere(old(store.rows), ClosedByAny(engine, excluded, recs))
    ensures blocked == BlockedIds(engine, excluded, old(store.rows), recs)
  {
    blocked := {};
    NoneClosed(store.rows, ClosedByAny(engine, excluded, recs[..0]));
    for k := 0 to |recs|
      invariant store.rows == CloseWhere(old(store.rows), ClosedByAny(engine, excluded, recs[..k]))
      invariant blocked == BlockedIds(engine, excluded, old(store.rows), recs[..k])
    {
      ClosedStaysUnique(old(store.rows), ClosedByAny(engine, excluded, recs[..k]));
      PlanStep(engine, excluded, old(store.rows), recs, k);
      BlockedNext(engine, excluded, old(store.rows), recs, k);
      var isBlocked := PlanOne(store, engine, excluded, recs[k]);
      if isBlocked {
        blocked := blocked + {recs[k].id};
      }
    }
    assert recs[..|recs|] == recs;
  }
}
