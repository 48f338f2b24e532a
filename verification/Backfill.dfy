/** The fact-key backfill: project every key of a tenant, refuse if two current
    rows would share a slot, and otherwise write the keys row by row. */
module Backfill {
  import opened Attempts
  import opened SlotKeys
  import opened MemoryTable

  /** The write path's own key function, on a row's structured data. */
  type Formula = Json -> Option<string>

  const LEGACY := "sfx1:"

  /** The key a row will carry: the formula's, or else the one it has. */
  function Projected(formula: Formula, row: Row): Option<string> {
    if formula(row.structured).Some? then formula(row.structured) else row.key
  }

  predicate IsOutstanding(formula: Formula, row: Row) {
    formula(row.structured).Some? && formula(row.structured) != row.key
  }

  // ---- the writes ----------------------------------------------------------

  type Write = (nat, string)

  function Writes(formula: Formula, scoped: seq<Row>): seq<Write> {
    if scoped == [] then []
    else
      var row := scoped[|scoped| - 1];
      var before := Writes(formula, scoped[..|scoped| - 1]);
      if Projected(formula, row).Some? then before + [(row.id, Projected(formula, row).value)] else before
  }

  /** The table after a list of writes. */
  function Written(rows: seq<Row>, org: nat, writes: seq<Write>): seq<Row> {
    if writes == [] then rows
    else
      var n := |writes| - 1;
      Rekey(Written(rows, org, writes[..n]), org, writes[n].0, writes[n].1)
  }

  /** The table with the tenant's rows before position m rekeyed. */
  function Partial(formula: Formula, rows: seq<Row>, org: nat, m: nat): (r: seq<Row>)
    requires m <= |rows|
    ensures |r| == |rows|
    ensures forall i :: 0 <= i < |rows| ==>
      r[i] == if i < m && rows[i].organization == org then rows[i].(key := Projected(formula, rows[i])) else rows[i]
  {
    seq(|rows|, i requires 0 <= i < |rows| =>
      if i < m && rows[i].organization == org then rows[i].(key := Projected(formula, rows[i])) else rows[i])
  }

  /** What the tenant's table becomes. */
  function Rekeyed(formula: Formula, rows: seq<Row>, org: nat): seq<Row> {
    Partial(formula, rows, org, |rows|)
  }

  lemma WritesNext(formula: Formula, scoped: seq<Row>, row: Row)
    ensures Writes(formula, scoped + [row])
            == if Projected(formula, row).Some? then Writes(formula, scoped) + [(row.id, Projected(formula, row).value)]
               else Writes(formula, scoped)
  {
    assert (scoped + [row])[..|scoped|] == scoped;
  }

  lemma WrittenNext(rows: seq<Row>, org: nat, writes: seq<Write>, w: Write)
    ensures Written(rows, org, writes + [w]) == Rekey(Written(rows, org, writes), org, w.0, w.1)
  {
    assert (writes + [w])[..|writes|] == writes;
  }

  lemma PartialNext(formula: Formula, rows: seq<Row>, org: nat, m: nat)
    requires UniqueIds(rows) && m < |rows|
    ensures Partial(formula, rows, org, m + 1)
            == if rows[m].organization == org && Projected(formula, rows[m]).Some?
               then Rekey(Partial(formula, rows, org, m), org, rows[m].id, Projected(formula, rows[m]).value)
               else Partial(formula, rows, org, m)
  {
    var p, next := Partial(formula, rows, org, m), Partial(formula, rows, org, m + 1);
    forall i | 0 <= i < |rows| && i != m
      ensures p[i] == next[i] && p[i].id != rows[m].id
    {
      assert rows[i].id != rows[m].id;
    }
  }

  lemma NoneWritten(formula: Formula, rows: seq<Row>, org: nat)
    ensures Written(rows, org, Writes(formula, Scoped(rows[..0], org))) == Partial(formula, rows, org, 0)
  {
    assert Partial(formula, rows, org, 0) == rows;
  }

  lemma WrittenStep(formula: Formula, rows: seq<Row>, org: nat, m: nat)
    requires UniqueIds(rows) && m < |rows|
    requires Written(rows, org, Writes(formula, Scoped(rows[..m], org))) == Partial(formula, rows, org, m)
    ensures Written(rows, org, Writes(formula, Scoped(rows[..m + 1], org))) == Partial(formula, rows, org, m + 1)
  {
    hide Projected, Written, Scoped, Writes, UniqueIds, Partial, Rekey;
    var row, before := rows[m], Scoped(rows[..m], org);
    ScopedNext(rows, org, m);
    PartialNext(formula, rows, org, m);
    WritesNext(formula, before, row);
    if Projected(formula, row).Some? {
      WrittenNext(rows, org, Writes(formula, before), (row.id, Projected(formula, row).value));
    }
  }

  /** Writing the projected keys of the first m rows is rekeying them. */
  lemma {:induction false} WrittenIsPartial(formula: Formula, rows: seq<Row>, org: nat, m: nat)
    requires UniqueIds(rows) && m <= |rows|
    ensures Written(rows, org, Writes(formula, Scoped(rows[..m], org))) == Partial(formula, rows, org, m)
  {
    if m == 0 {
      NoneWritten(formula, rows, org);
    } else {
      WrittenIsPartial(formula, rows, org, m - 1);
      WrittenStep(formula, rows, org, m - 1);
    }
  }

  lemma AllWritten(formula: Formula, rows: seq<Row>, org: nat)
    requires UniqueIds(rows)
    ensures Written(rows, org, Writes(formula, Scoped(rows, org))) == Rekeyed(formula, rows, org)
  {
    assert rows[..|rows|] == rows;
    WrittenIsPartial(formula, rows, org, |rows|);
  }

  lemma NoWrites(formula: Formula, rows: seq<Row>, org: nat)
    ensures Writes(formula, Scoped(rows[..0], org)) == []
  {
  }

  lemma PrefixOfMore(a: seq<Write>, w: Write, q: nat)
    requires q <= |a|
    ensures (a + [w])[..q] == a[..q]
  {
  }

  /** Every prefix of the writes stops at some row. */
  lemma {:induction false} PrefixStops(formula: Formula, rows: seq<Row>, org: nat, q: nat, top: nat) returns (m: nat)
    requires top <= |rows| && q <= |Writes(formula, Scoped(rows[..top], org))|
    ensures m <= top
    ensures Writes(formula, Scoped(rows[..top], org))[..q] == Writes(formula, Scoped(rows[..m], org))
  {
    hide Writes, Scoped, Projected;
    var writes := Writes(formula, Scoped(rows[..top], org));
    NoWrites(formula, rows, org);
    if q == |writes| {
      m := top;
      assert writes[..q] == writes;
    } else {
      var row, before := rows[top - 1], Scoped(rows[..top - 1], org);
      ScopedNext(rows, org, top - 1);
      WritesNext(formula, before, row);
      m := PrefixStops(formula, rows, org, q, top - 1);
      if Projected(formula, row).Some? {
        PrefixOfMore(Writes(formula, before), (row.id, Projected(formula, row).value), q);
      }
    }
  }

  // ---- the index at every step ---------------------------------------------

  /** No row is given a key that a later row still holds. */
  predicate NoClash(formula: Formula, rows: seq<Row>, org: nat) {
    forall i, j :: 0 <= i < j < |rows| && rows[i].organization == org ==>
      !SameSlot(rows[i].(key := Projected(formula, rows[i])), rows[j])
  }

  lemma PartialUnique(formula: Formula, rows: seq<Row>, org: nat, m: nat)
    requires m <= |rows|
    requires UniqueSlots(rows) && UniqueSlots(Rekeyed(formula, rows, org)) && NoClash(formula, rows, org)
    ensures UniqueSlots(Partial(formula, rows, org, m))
  {
    var p, all := Partial(formula, rows, org, m), Rekeyed(formula, rows, org);
    forall i, j | 0 <= i < j < |rows|
      ensures !SameSlot(p[i], p[j])
    {
      assert !SameSlot(rows[i], rows[j]) && !SameSlot(all[i], all[j]);
    }
  }

  lemma ClashSeen(formula: Formula, rows: seq<Row>, org: nat, i: nat, j: nat)
    requires i < j < |rows| && rows[i].organization == org
    requires SameSlot(rows[i].(key := Projected(formula, rows[i])), rows[j])
    ensures !UniqueSlots(Partial(formula, rows, org, i + 1))
  {
    var p := Partial(formula, rows, org, i + 1);
    assert SameSlot(p[i], p[j]);
  }

  /** The table satisfies the index after every single write. */
  ghost predicate StaysUnique(formula: Formula, rows: seq<Row>, org: nat) {
    var writes := Writes(formula, Scoped(rows, org));
    forall q :: 0 <= q <= |writes| ==> UniqueSlots(Written(rows, org, writes[..q]))
  }

  lemma UniqueAtEach(formula: Formula, rows: seq<Row>, org: nat, q: nat)
    requires UniqueIds(rows) && UniqueSlots(rows) && UniqueSlots(Rekeyed(formula, rows, org))
    requires NoClash(formula, rows, org) && q <= |Writes(formula, Scoped(rows, org))|
    ensures UniqueSlots(Written(rows, org, Writes(formula, Scoped(rows, org))[..q]))
  {
    hide Written, Writes, Scoped, UniqueIds, UniqueSlots, NoClash, Projected;
    assert rows[..|rows|] == rows;
    var m := PrefixStops(formula, rows, org, q, |rows|);
    WrittenIsPartial(formula, rows, org, m);
    PartialUnique(formula, rows, org, m);
  }

  lemma ClashMet(formula: Formula, rows: seq<Row>, org: nat, i: nat, j: nat) returns (q: nat)
    requires UniqueIds(rows) && i < j < |rows| && rows[i].organization == org
    requires SameSlot(rows[i].(key := Projected(formula, rows[i])), rows[j])
    ensures q <= |Writes(formula, Scoped(rows, org))|
    ensures !UniqueSlots(Written(rows, org, Writes(formula, Scoped(rows, org))[..q]))
  {
    hide Written, Writes, Scoped, UniqueIds, UniqueSlots, Projected, SameSlot;
    ClashSeen(formula, rows, org, i, j);
    WrittenIsPartial(formula, rows, org, i + 1);
    q := WritesPrefix(formula, rows, org, i + 1);
  }

  /** Given an index that holds and a projection without collisions, the index
      holds after every write exactly when no row is given a key that a later
      row of the same user still holds. */
  lemma StaysUniqueExactly(formula: Formula, rows: seq<Row>, org: nat)
    requires UniqueIds(rows) && UniqueSlots(rows) && UniqueSlots(Rekeyed(formula, rows, org))
    ensures StaysUnique(formula, rows, org) <==> NoClash(formula, rows, org)
  {
    hide Written, Writes, Scoped, UniqueIds, UniqueSlots, Projected, SameSlot;
    if NoClash(formula, rows, org) {
      forall q | 0 <= q <= |Writes(formula, Scoped(rows, org))|
        ensures UniqueSlots(Written(rows, org, Writes(formula, Scoped(rows, org))[..q]))
      {
        UniqueAtEach(formula, rows, org, q);
      }
    } else {
      var i, j :| 0 <= i < j < |rows| && rows[i].organization == org
        && SameSlot(rows[i].(key := Projected(formula, rows[i])), rows[j]);
      var q := ClashMet(formula, rows, org, i, j);
    }
  }

  lemma {:induction false} WritesPrefix(formula: Formula, rows: seq<Row>, org: nat, m: nat) returns (q: nat)
    requires m <= |rows|
    ensures q <= |Writes(formula, Scoped(rows, org))|
    ensures Writes(formula, Scoped(rows, org))[..q] == Writes(formula, Scoped(rows[..m], org))
    decreases |rows| - m
  {
    hide Writes, Scoped, Projected;
    q := |Writes(formula, Scoped(rows[..m], org))|;
    if m == |rows| {
      assert rows[..m] == rows;
    } else {
      var row, before := rows[m], Writes(formula, Scoped(rows[..m], org));
      var next := WritesPrefix(formula, rows, org, m + 1);
      ScopedNext(rows, org, m);
      WritesNext(formula, Scoped(rows[..m], org), row);
      if Projected(formula, row).Some? {
        PrefixOfMore(before, (row.id, Projected(formula, row).value), q);
      }
      ShorterPrefix(Writes(formula, Scoped(rows, org)), q, next);
    }
  }

  lemma ShorterPrefix(a: seq<Write>, q: nat, n: nat)
    requires q <= n <= |a|
    ensures a[..n][..q] == a[..q]
  {
  }

  /** Keys of the new family. */
  predicate IsStructural(key: Option<string>) {
    key.Some? && PREFIX <= key.value
  }

  ghost predicate MakesStructural(formula: Formula) {
    forall s :: formula(s).Some? ==> IsStructural(formula(s))
  }

  /** The script calls the write path's own function. */
  function WritePath(f: Fold, sha: Hash): Formula {
    s => StructuralKey(f, sha, s)
  }

  lemma StructuralKeyHasPrefix(f: Fold, sha: Hash, structured: Json)
    ensures StructuralKey(f, sha, structured).Some? ==> IsStructural(StructuralKey(f, sha, structured))
  {
    hide Normalised, CanonicalTriple, ExplicitSlot, JoinParts, IsComplete;
  }

  lemma WritePathMakesStructural(f: Fold, sha: Hash)
    ensures MakesStructural(WritePath(f, sha))
  {
    hide StructuralKey, IsStructural;
    forall s | StructuralKey(f, sha, s).Some?
      ensures IsStructural(StructuralKey(f, sha, s))
    {
      StructuralKeyHasPrefix(f, sha, s);
    }
  }

  /** Every row of the tenant whose key changes held no key of the new family. */
  predicate OnlyOldKeysChange(formula: Formula, rows: seq<Row>, org: nat) {
    forall i :: 0 <= i < |rows| && rows[i].organization == org && IsOutstanding(formula, rows[i]) ==>
      !IsStructural(rows[i].key)
  }

  /** The first backfill of the new family is therefore safe at every step. */
  lemma FirstBackfillIsSafe(formula: Formula, rows: seq<Row>, org: nat)
    requires UniqueIds(rows) && UniqueSlots(rows) && UniqueSlots(Rekeyed(formula, rows, org))
    requires MakesStructural(formula) && OnlyOldKeysChange(formula, rows, org)
    ensures StaysUnique(formula, rows, org)
  {
    var all := Rekeyed(formula, rows, org);
    forall i, j | 0 <= i < j < |rows| && rows[i].organization == org
      ensures !SameSlot(rows[i].(key := Projected(formula, rows[i])), rows[j])
    {
      assert !SameSlot(rows[i], rows[j]) && !SameSlot(all[i], all[j]);
    }
    StaysUniqueExactly(formula, rows, org);
  }

  /** A row without a key before one that holds the key the first is due. */
  function HeldKey(f: Fold, sha: Hash, a: Json, b: Json): seq<Row> {
    [Row(0, 0, 0, "fact", None, true, a), Row(1, 0, 0, "fact", StructuralKey(f, sha, a), true, b)]
  }

  lemma HeldKeyClashes(formula: Formula, a: Json, b: Json)
    requires formula(a).Some? && formula(b).Some? && formula(a) != formula(b)
    ensures
      var rows := [Row(0, 0, 0, "fact", None, true, a), Row(1, 0, 0, "fact", formula(a), true, b)];
      && UniqueIds(rows) && UniqueSlots(rows) && UniqueSlots(Rekeyed(formula, rows, 0))
      && !NoClash(formula, rows, 0)
  {
    var rows := [Row(0, 0, 0, "fact", None, true, a), Row(1, 0, 0, "fact", formula(a), true, b)];
    var all := Rekeyed(formula, rows, 0);
    assert all[0].key == formula(a) && all[1].key == formula(b);
    assert SameSlot(rows[0].(key := Projected(formula, rows[0])), rows[1]);
  }

  /** Without that premise an intermediate table can break the index although the
      first and the last do not: for the script's own formula, whenever a row
      holds the key that an earlier one is due, because its payload has come to
      name another slot. */
  lemma ChangingNewKeysCanClash(f: Fold, sha: Hash, a: Json, b: Json)
    requires IsFolding(f) && IsInjective(sha)
    requires SlotWords(f, a).Some? && SlotWords(f, b).Some? && SlotWords(f, a) != SlotWords(f, b)
    ensures
      var rows := HeldKey(f, sha, a, b);
      && UniqueIds(rows) && UniqueSlots(rows) && UniqueSlots(Rekeyed(WritePath(f, sha), rows, 0))
      && !StaysUnique(WritePath(f, sha), rows, 0)
  {
    hide StructuralKey, SlotWords, UniqueIds, UniqueSlots, StaysUnique, NoClash;
    KeyIsDigestOfWords(f, sha, a);
    KeyIsDigestOfWords(f, sha, b);
    KeysShared(f, sha, a, b);
    HeldKeyClashes(WritePath(f, sha), a, b);
    StaysUniqueExactly(WritePath(f, sha), HeldKey(f, sha, a, b), 0);
  }
}
