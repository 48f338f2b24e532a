/** The backfill script over a stored table: paging, counting, refusing,
    writing, and counting again. */
module BackfillRun {
  import opened Attempts
  import opened MemoryTable
  import opened Backfill

  // ---- counting ------------------------------------------------------------

  /** A slot is a user and a non-empty key. */
  type Slot = (nat, string)

  /** A `Counter` over slots. */
  type Counter = map<Slot, nat>

  function Place(row: Row, key: Option<string>): Option<Slot> {
    if row.current && key.Some? && key.value != "" then Some((row.user, key.value)) else None
  }

  /** The slot a row stands in, by its stored key and by its projected one. */
  function SlotBefore(): Row -> Option<Slot> {
    (row: Row) => Place(row, row.key)
  }

  function SlotAfter(formula: Formula): Row -> Option<Slot> {
    (row: Row) => Place(row, Projected(formula, row))
  }

  function Holding(slotOf: Row -> Option<Slot>, slot: Slot): Row -> bool {
    (row: Row) => slotOf(row) == Some(slot)
  }

  function Placed(slotOf: Row -> Option<Slot>): Row -> bool {
    (row: Row) => slotOf(row).Some?
  }

  function Tally(c: Counter, slot: Slot): Counter {
    c[slot := 1 + if slot in c then c[slot] else 0]
  }

  function Counted(slotOf: Row -> Option<Slot>, rows: seq<Row>): Counter {
    if rows == [] then map[]
    else
      var before := Counted(slotOf, rows[..|rows| - 1]);
      var slot := slotOf(rows[|rows| - 1]);
      if slot.Some? then Tally(before, slot.value) else before
  }

  lemma CountedNext(slotOf: Row -> Option<Slot>, rows: seq<Row>, i: nat)
    requires i < |rows|
    ensures Counted(slotOf, rows[..i + 1]) ==
            if slotOf(rows[i]).Some? then Tally(Counted(slotOf, rows[..i]), slotOf(rows[i]).value)
            else Counted(slotOf, rows[..i])
  {
    assert rows[..i + 1][..i] == rows[..i];
  }

  /** The counter holds the slots that occur, each with its number of rows. */
  lemma {:induction false} CountedTallies(slotOf: Row -> Option<Slot>, rows: seq<Row>, slot: Slot)
    ensures slot in Counted(slotOf, rows) <==> Count(rows, Holding(slotOf, slot)) > 0
    ensures slot in Counted(slotOf, rows) ==> Counted(slotOf, rows)[slot] == Count(rows, Holding(slotOf, slot))
  {
    if rows != [] {
      CountedTallies(slotOf, rows[..|rows| - 1], slot);
    }
  }

  /** There are at most as many slots as rows in slots, and as many exactly when
      no two rows share one. */
  lemma {:induction false} SlotsAtMostRows(slotOf: Row -> Option<Slot>, rows: seq<Row>)
    ensures |Counted(slotOf, rows)| <= Count(rows, Placed(slotOf))
    ensures |Counted(slotOf, rows)| == Count(rows, Placed(slotOf))
            <==> forall slot :: slot in Counted(slotOf, rows) ==> Counted(slotOf, rows)[slot] == 1
  {
    if rows != [] {
      var n := |rows| - 1;
      var before, after, slot := Counted(slotOf, rows[..n]), Counted(slotOf, rows), slotOf(rows[n]);
      SlotsAtMostRows(slotOf, rows[..n]);
      if slot.Some? {
        assert after == Tally(before, slot.value);
        CountedTallies(slotOf, rows[..n], slot.value);
        assert after.Keys == before.Keys + {slot.value};
        if slot.value !in before {
          assert forall other :: other in before ==> after[other] == before[other];
        } else {
          assert after[slot.value] > 1;
        }
      }
    }
  }

  /** `_collisions`: the slots with more than one row. */
  function Collisions(c: Counter): Counter {
    map slot | slot in c && slot.1 != "" && c[slot] > 1 :: c[slot]
  }

  // ---- the collision check is exact ----------------------------------------

  lemma CollidingRows(formula: Formula, rows: seq<Row>, org: nat, slot: Slot) returns (i: nat, j: nat)
    requires Count(Scoped(rows, org), Holding(SlotAfter(formula), slot)) >= 2
    ensures i < j < |rows| && rows[i].organization == org && rows[j].organization == org
    ensures SlotAfter(formula)(rows[i]) == SlotAfter(formula)(rows[j]) == Some(slot)
  {
    var p := Within(org, Holding(SlotAfter(formula), slot));
    CountScoped(rows, org, Holding(SlotAfter(formula), slot));
    CountTwo(rows, p);
    i, j :| 0 <= i < j < |rows| && p(rows[i]) && p(rows[j]);
  }

  lemma RowsCollide(formula: Formula, rows: seq<Row>, org: nat, slot: Slot, i: nat, j: nat)
    requires i < j < |rows| && rows[i].organization == org && rows[j].organization == org
    requires SlotAfter(formula)(rows[i]) == SlotAfter(formula)(rows[j]) == Some(slot)
    ensures Count(Scoped(rows, org), Holding(SlotAfter(formula), slot)) >= 2
  {
    var p := Within(org, Holding(SlotAfter(formula), slot));
    CountScoped(rows, org, Holding(SlotAfter(formula), slot));
    assert p(rows[i]) && p(rows[j]);
    CountTwo(rows, p);
  }

  /** The projection reports a collision exactly when the rewritten table would
      break the index. */
  lemma CollisionsExact(formula: Formula, rows: seq<Row>, org: nat)
    requires UniqueSlots(rows) && MakesStructural(formula)
    ensures Collisions(Counted(SlotAfter(formula), Scoped(rows, org))) == map[]
            <==> UniqueSlots(Rekeyed(formula, rows, org))
  {
    var c := Counted(SlotAfter(formula), Scoped(rows, org));
    var all := Rekeyed(formula, rows, org);
    if Collisions(c) != map[] {
      var slot :| slot in Collisions(c);
      CountedTallies(SlotAfter(formula), Scoped(rows, org), slot);
      var i, j := CollidingRows(formula, rows, org, slot);
      assert SameSlot(all[i], all[j]);
    } else {
      forall i, j | 0 <= i < j < |rows|
        ensures !SameSlot(all[i], all[j])
      {
        assert !SameSlot(rows[i], rows[j]);
        if SameSlot(all[i], all[j]) {
          var slot := (rows[i].user, all[i].key.value);
          assert slot in c && c[slot] > 1 ==> slot in Collisions(c);
          RowsCollide(formula, rows, org, slot, i, j);
          CountedTallies(SlotAfter(formula), Scoped(rows, org), slot);
          assert false;
        }
      }
    }
  }

  predicate HasTriple(formula: Formula, row: Row) {
    formula(row.structured).Some?
  }

  // ---- the report ----------------------------------------------------------

  class TenantReport {
    var scanned: nat
    var withTriple: nat
    var alreadyCurrent: nat
    var rekeyed: nat
    var noTriple: nat
    var untouchedOther: nat
    var currentRowsBefore: nat
    var currentSlotsBefore: nat
    var currentSlotsAfter: nat
    var blockingCollisions: Counter
    var unverified: Option<nat>

    constructor ()
      ensures scanned == withTriple == alreadyCurrent == rekeyed == noTriple == untouchedOther == 0
      ensures currentRowsBefore == currentSlotsBefore == currentSlotsAfter == 0
      ensures blockingCollisions == map[] && unverified == None
    {
      scanned, withTriple, alreadyCurrent, rekeyed, noTriple, untouchedOther := 0, 0, 0, 0, 0, 0;
      currentRowsBefore, currentSlotsBefore, currentSlotsAfter := 0, 0, 0;
      blockingCollisions, unverified := map[], None;
    }

    /** The counts of a scanned prefix. */
    ghost predicate Describes(formula: Formula, rows: seq<Row>)
      reads this
    {
      && scanned == |rows|
      && withTriple == Count(rows, (row: Row) => HasTriple(formula, row))
      && alreadyCurrent == Count(rows, (row: Row) => HasTriple(formula, row) && !IsOutstanding(formula, row))
      && rekeyed == Count(rows, (row: Row) => IsOutstanding(formula, row))
      && noTriple == Count(rows, (row: Row) => !HasTriple(formula, row))
      && untouchedOther == Count(rows, (row: Row) => !HasTriple(formula, row) && IsLegacy(row.key))
      && currentRowsBefore == Count(rows, (row: Row) => row.current && Projected(formula, row).Some?)
    }

    /** The increments of one row. */
    method Note(formula: Formula, ghost rows: seq<Row>, ghost i: nat, row: Row)
      requires i < |rows| && rows[i] == row && Describes(formula, rows[..i])
      modifies this`scanned, this`withTriple, this`alreadyCurrent, this`rekeyed, this`noTriple, this`untouchedOther,
               this`currentRowsBefore
      ensures Describes(formula, rows[..i + 1])
    {
      CountNext(rows, i, (row: Row) => HasTriple(formula, row));
      CountNext(rows, i, (row: Row) => HasTriple(formula, row) && !IsOutstanding(formula, row));
      CountNext(rows, i, (row: Row) => IsOutstanding(formula, row));
      CountNext(rows, i, (row: Row) => !HasTriple(formula, row));
      CountNext(rows, i, (row: Row) => !HasTriple(formula, row) && IsLegacy(row.key));
      CountNext(rows, i, (row: Row) => row.current && Projected(formula, row).Some?);
      scanned := scanned + 1;
      if formula(row.structured).None? {
        noTriple := noTriple + 1;
        if IsLegacy(row.key) {
          untouchedOther := untouchedOther + 1;
        }
      } else {
        withTriple := withTriple + 1;
        if formula(row.structured) == row.key {
          alreadyCurrent := alreadyCurrent + 1;
        } else {
          rekeyed := rekeyed + 1;
        }
      }
      if Projected(formula, row).Some? && row.current {
        currentRowsBefore := currentRowsBefore + 1;
      }
    }

    /** What both counters say, once every row is scanned. */
    method Conclude(before: Counter, after: Counter)
      modifies this`currentSlotsBefore, this`currentSlotsAfter, this`blockingCollisions
      ensures currentSlotsBefore == |before| && currentSlotsAfter == |after|
      ensures blockingCollisions == Collisions(after)
    {
      currentSlotsBefore := |before|;
      currentSlotsAfter := |after|;
      blockingCollisions := Collisions(after);
    }
  }

  predicate IsLegacy(key: Option<string>) {
    key.Some? && LEGACY <= key.value
  }

  /** Every scanned row is counted once: with a triple or without, and with one
      either current already or rekeyed. */
  lemma ScanAddsUp(formula: Formula, rows: seq<Row>)
    ensures |rows| == Count(rows, (row: Row) => HasTriple(formula, row))
                      + Count(rows, (row: Row) => !HasTriple(formula, row))
    ensures Count(rows, (row: Row) => HasTriple(formula, row))
            == Count(rows, (row: Row) => HasTriple(formula, row) && !IsOutstanding(formula, row))
               + Count(rows, (row: Row) => IsOutstanding(formula, row))
  {
    var all: Row -> bool := row => true;
    var with: Row -> bool := (row: Row) => HasTriple(formula, row);
    var without: Row -> bool := (row: Row) => !HasTriple(formula, row);
    CountAll(rows, all);
    assert forall i :: 0 <= i < |rows| ==> all(rows[i]) && without(rows[i]) == !with(rows[i]);
    CountSum(rows, all, with, without);
    CountSum(rows, with, (row: Row) => HasTriple(formula, row) && !IsOutstanding(formula, row),
             (row: Row) => IsOutstanding(formula, row));
  }

  lemma {:induction false} CountAll(rows: seq<Row>, p: Row -> bool)
    requires forall row :: p(row)
    ensures Count(rows, p) == |rows|
  {
    if rows != [] {
      CountAll(rows[..|rows| - 1], p);
    }
  }

  // ---- pass one ------------------------------------------------------------

  lemma WritesPrefixNext(formula: Formula, scoped: seq<Row>, i: nat)
    requires i < |scoped|
    ensures Writes(formula, scoped[..i + 1])
            == if Projected(formula, scoped[i]).Some?
               then Writes(formula, scoped[..i]) + [(scoped[i].id, Projected(formula, scoped[i]).value)]
               else Writes(formula, scoped[..i])
  {
    assert scoped[..i + 1] == scoped[..i] + [scoped[i]];
    WritesNext(formula, scoped[..i], scoped[i]);
  }

  /** One page of the reading pass. */
  method ScanPage(page: seq<Row>, formula: Formula, ghost scoped: seq<Row>, ghost offset: nat, report: TenantReport,
                  projectedSoFar: seq<Write>, beforeSoFar: Counter, afterSoFar: Counter)
      returns (projected: seq<Write>, before: Counter, after: Counter)
    requires offset + |page| <= |scoped| && page == scoped[offset..offset + |page|]
    requires report.Describes(formula, scoped[..offset]) && projectedSoFar == Writes(formula, scoped[..offset])
    requires beforeSoFar == Counted(SlotBefore(), scoped[..offset])
    requires afterSoFar == Counted(SlotAfter(formula), scoped[..offset])
    modifies report`scanned, report`withTriple, report`alreadyCurrent, report`rekeyed, report`noTriple,
             report`untouchedOther, report`currentRowsBefore
    ensures report.Describes(formula, scoped[..offset + |page|])
    ensures projected == Writes(formula, scoped[..offset + |page|])
    ensures before == Counted(SlotBefore(), scoped[..offset + |page|])
    ensures after == Counted(SlotAfter(formula), scoped[..offset + |page|])
  {
    hide TenantReport.Describes, Writes, Counted;
    projected, before, after := projectedSoFar, beforeSoFar, afterSoFar;
    for k := 0 to |page|
      invariant report.Describes(formula, scoped[..offset + k])
      invariant projected == Writes(formula, scoped[..offset + k])
      invariant before == Counted(SlotBefore(), scoped[..offset + k])
      invariant after == Counted(SlotAfter(formula), scoped[..offset + k])
    {
      var row := page[k];
      assert row == scoped[offset + k];
      report.Note(formula, scoped, offset + k, row);
      WritesPrefixNext(formula, scoped, offset + k);
      CountedNext(SlotBefore(), scoped, offset + k);
      CountedNext(SlotAfter(formula), scoped, offset + k);
      if Projected(formula, row).None? {
        continue;
      }
      projected := projected + [(row.id, Projected(formula, row).value)];
      if row.current {
        if row.key.Some? && row.key.value != "" {
          before := Tally(before, (row.user, row.key.value));
        }
        if Projected(formula, row).value != "" {
          after := Tally(after, (row.user, Projected(formula, row).value));
        }
      }
    }
  }

  /** The reading pass: every row of the tenant once, page by page. */
  method ScanTenant(store: MemoryStore, formula: Formula, org: nat, batchSize: nat, report: TenantReport)
      returns (projected: seq<Write>, before: Counter, after: Counter)
    requires batchSize >= 1 && report.Describes(formula, [])
    modifies report`scanned, report`withTriple, report`alreadyCurrent, report`rekeyed, report`noTriple,
             report`untouchedOther, report`currentRowsBefore
    ensures report.Describes(formula, Scoped(store.rows, org))
    ensures projected == Writes(formula, Scoped(store.rows, org))
    ensures before == Counted(SlotBefore(), Scoped(store.rows, org))
    ensures after == Counted(SlotAfter(formula), Scoped(store.rows, org))
  {
    ghost var scoped := Scoped(store.rows, org);
    projected, before, after := [], map[], map[];
    var offset := 0;
    assert scoped[..0] == [];
    hide TenantReport.Describes, Writes, Counted, Scoped;
    while true
      invariant offset <= |scoped|
      invariant report.Describes(formula, scoped[..offset])
      invariant projected == Writes(formula, scoped[..offset])
      invariant before == Counted(SlotBefore(), scoped[..offset])
      invariant after == Counted(SlotAfter(formula), scoped[..offset])
      decreases |scoped| - offset
    {
      var page := store.GetAll(org, offset, batchSize);
      if page == [] {
        break;
      }
      projected, before, after := ScanPage(page, formula, scoped, offset, report, projected, before, after);
      offset := offset + |page|;
      if |page| < batchSize {
        break;
      }
    }
    assert scoped[..offset] == scoped;
  }
}
