/** What becomes of each memory of a batch, said by the deduplicator's word alone, and
    how many there are of each kind. */
module BatchFates {
  import opened SlotKeys
  import opened Batch

  predicate Ascending(at: seq<nat>, n: nat) {
    (forall a :: 0 <= a < |at| ==> at[a] < n) && forall a, b :: 0 <= a < b < |at| ==> at[a] < at[b]
  }

  lemma OneMoreAscends(at: seq<nat>, n: nat)
    requires Ascending(at, n)
    ensures Ascending(at, n + 1) && Ascending(at + [n], n + 1)
  {
  }

  // ---- those left to store -------------------------------------------------

  predicate IsStored(s: Setting, ms: seq<Extracted>, verdicts: nat -> Verdict, i: nat)
    requires i < |ms|
  {
    OpensSlot(s, ms, i) && verdicts(i) == Store
  }

  /** The places from which the memories left to store were taken. */
  ghost predicate TakenFrom(s: Setting, ms: seq<Extracted>, verdicts: nat -> Verdict, n: nat, at: seq<nat>,
                            valid: seq<Extracted>)
    requires n <= |ms|
  {
    && Ascending(at, n) && |at| == |valid|
    && (forall a :: 0 <= a < |at| ==> valid[a] == ms[at[a]])
    && forall i :: 0 <= i < n ==> (i in at <==> IsStored(s, ms, verdicts, i))
  }

  lemma OneMoreTaken(s: Setting, ms: seq<Extracted>, verdicts: nat -> Verdict, n: nat, at: seq<nat>,
                     valid: seq<Extracted>)
    requires n < |ms| && TakenFrom(s, ms, verdicts, n, at, valid)
    ensures if IsStored(s, ms, verdicts, n) then TakenFrom(s, ms, verdicts, n + 1, at + [n], valid + [ms[n]])
            else TakenFrom(s, ms, verdicts, n + 1, at, valid)
  {
    hide IsStored;
    OneMoreAscends(at, n);
    assert forall i :: 0 <= i < n ==> (i in at + [n] <==> i in at);
    assert n in at + [n] && n !in at;
  }

  lemma FateIs(s: Setting, ms: seq<Extracted>, verdicts: nat -> Verdict, i: nat)
    requires i < |ms|
    ensures Fate(s, ms, verdicts, i) == Stored <==> IsStored(s, ms, verdicts, i)
    ensures Fate(s, ms, verdicts, i) != Stored ==>
      IsEntryOf(s, ms, verdicts, i, Detail(Fate(s, ms, verdicts, i), ms[i]))
  {
    hide OpensSlot;
  }

  lemma NothingTaken(s: Setting, ms: seq<Extracted>, verdicts: nat -> Verdict)
    ensures TakenFrom(s, ms, verdicts, 0, [], []) && EntriesOf(s, ms, verdicts, 0, [], [])
  {
  }

  /** A memory is left to store exactly when it opens its slot and its verdict is to
      store it; they keep their order. */
  lemma {:induction false} StoredExactly(s: Setting, ms: seq<Extracted>, verdicts: nat -> Verdict, n: nat)
      returns (at: seq<nat>)
    requires n <= |ms|
    ensures TakenFrom(s, ms, verdicts, n, at, Valid(s, ms, verdicts, n))
  {
    hide OpensSlot, TakenFrom, Fate, IsStored;
    if n == 0 {
      NothingTaken(s, ms, verdicts);
      at := [];
    } else {
      at := StoredExactly(s, ms, verdicts, n - 1);
      OneMoreTaken(s, ms, verdicts, n - 1, at, Valid(s, ms, verdicts, n - 1));
      FateIs(s, ms, verdicts, n - 1);
      FatesNext(s, ms, verdicts, n - 1);
      if IsStored(s, ms, verdicts, n - 1) {
        at := at + [n - 1];
      }
    }
  }

  // ---- the entries of the others -------------------------------------------

  /** An entry of the loop: merged in the batch exactly when the memory does not open
      its slot, and otherwise as the deduplicator says. */
  predicate IsEntryOf(s: Setting, ms: seq<Extracted>, verdicts: nat -> Verdict, i: nat, d: Detail)
    requires i < |ms|
  {
    && d.memory == ms[i]
    && if !OpensSlot(s, ms, i) then d.action == MergedInBatch
       else if verdicts(i) == Merge then d.action == Merged
       else verdicts(i) == Discard && d.action == Discarded
  }

  ghost predicate EntriesOf(s: Setting, ms: seq<Extracted>, verdicts: nat -> Verdict, n: nat, at: seq<nat>,
                            entries: seq<Detail>)
    requires n <= |ms|
  {
    && Ascending(at, n) && |at| == |entries|
    && (forall a :: 0 <= a < |at| ==> IsEntryOf(s, ms, verdicts, at[a], entries[a]))
    && forall i :: 0 <= i < n ==> (i in at <==> !IsStored(s, ms, verdicts, i))
  }

  lemma OneMoreEntry(s: Setting, ms: seq<Extracted>, verdicts: nat -> Verdict, n: nat, at: seq<nat>,
                     entries: seq<Detail>, d: Detail)
    requires n < |ms| && EntriesOf(s, ms, verdicts, n, at, entries)
    ensures IsStored(s, ms, verdicts, n) ==> EntriesOf(s, ms, verdicts, n + 1, at, entries)
    ensures !IsStored(s, ms, verdicts, n) && IsEntryOf(s, ms, verdicts, n, d) ==>
      EntriesOf(s, ms, verdicts, n + 1, at + [n], entries + [d])
  {
    hide IsStored, IsEntryOf;
    OneMoreAscends(at, n);
    assert forall i :: 0 <= i < n ==> (i in at + [n] <==> i in at);
    assert n in at + [n] && n !in at;
  }

  /** Every other memory has one entry, in order: MergedInBatch when it does not open
      its slot, and otherwise Merged or Discarded as its verdict says. */
  lemma {:induction false} FoldedExactly(s: Setting, ms: seq<Extracted>, verdicts: nat -> Verdict, n: nat)
      returns (at: seq<nat>)
    requires n <= |ms|
    ensures EntriesOf(s, ms, verdicts, n, at, Folded(s, ms, verdicts, n))
  {
    hide OpensSlot, EntriesOf, IsEntryOf, Fate, IsStored;
    if n == 0 {
      NothingTaken(s, ms, verdicts);
      at := [];
    } else {
      at := FoldedExactly(s, ms, verdicts, n - 1);
      OneMoreEntry(s, ms, verdicts, n - 1, at, Folded(s, ms, verdicts, n - 1),
                   Detail(Fate(s, ms, verdicts, n - 1), ms[n - 1]));
      FateIs(s, ms, verdicts, n - 1);
      FatesNext(s, ms, verdicts, n - 1);
      if !IsStored(s, ms, verdicts, n - 1) {
        at := at + [n - 1];
      }
    }
  }

  // ---- how many of each ----------------------------------------------------

  /** Those that repeat an earlier one, or that the deduplicator merges. */
  predicate IsMerged(s: Setting, ms: seq<Extracted>, verdicts: nat -> Verdict, i: nat)
    requires i < |ms|
  {
    OpensSlot(s, ms, i) ==> verdicts(i) == Merge
  }

  /** Those that open their slot and that it discards. */
  predicate IsDiscarded(s: Setting, ms: seq<Extracted>, verdicts: nat -> Verdict, i: nat)
    requires i < |ms|
  {
    OpensSlot(s, ms, i) && verdicts(i) == Discard
  }

  function MergedOnes(s: Setting, ms: seq<Extracted>, verdicts: nat -> Verdict, n: nat): set<nat>
    requires n <= |ms|
  {
    set i: nat | i < n && IsMerged(s, ms, verdicts, i)
  }

  function DiscardedOnes(s: Setting, ms: seq<Extracted>, verdicts: nat -> Verdict, n: nat): set<nat>
    requires n <= |ms|
  {
    set i: nat | i < n && IsDiscarded(s, ms, verdicts, i)
  }

  lemma MergedNext(s: Setting, ms: seq<Extracted>, verdicts: nat -> Verdict, n: nat)
    requires n < |ms|
    ensures |MergedOnes(s, ms, verdicts, n + 1)|
            == |MergedOnes(s, ms, verdicts, n)| + if IsMerged(s, ms, verdicts, n) then 1 else 0
  {
    hide IsMerged;
    assert MergedOnes(s, ms, verdicts, n + 1)
        == MergedOnes(s, ms, verdicts, n) + if IsMerged(s, ms, verdicts, n) then {n} else {};
  }

  lemma DiscardedNext(s: Setting, ms: seq<Extracted>, verdicts: nat -> Verdict, n: nat)
    requires n < |ms|
    ensures |DiscardedOnes(s, ms, verdicts, n + 1)|
            == |DiscardedOnes(s, ms, verdicts, n)| + if IsDiscarded(s, ms, verdicts, n) then 1 else 0
  {
    hide IsDiscarded;
    assert DiscardedOnes(s, ms, verdicts, n + 1)
        == DiscardedOnes(s, ms, verdicts, n) + if IsDiscarded(s, ms, verdicts, n) then {n} else {};
  }

  lemma FateCounts(s: Setting, ms: seq<Extracted>, verdicts: nat -> Verdict, i: nat)
    requires i < |ms|
    ensures IsMerged(s, ms, verdicts, i) <==>
      Fate(s, ms, verdicts, i) == MergedInBatch || Fate(s, ms, verdicts, i) == Merged
    ensures IsDiscarded(s, ms, verdicts, i) <==> Fate(s, ms, verdicts, i) == Discarded
    ensures Fate(s, ms, verdicts, i) != SlotOccupied
  {
    hide OpensSlot;
  }

  predicate CountsFates(s: Setting, ms: seq<Extracted>, verdicts: nat -> Verdict, n: nat, folded: seq<Detail>)
    requires n <= |ms|
  {
    && Taken(folded, MergedInBatch) + Taken(folded, Merged) == |MergedOnes(s, ms, verdicts, n)|
    && Taken(folded, Discarded) == |DiscardedOnes(s, ms, verdicts, n)|
    && Taken(folded, SlotOccupied) == 0
  }

  lemma NothingCounted(s: Setting, ms: seq<Extracted>, verdicts: nat -> Verdict)
    ensures CountsFates(s, ms, verdicts, 0, [])
  {
    hide IsMerged, IsDiscarded;
    assert MergedOnes(s, ms, verdicts, 0) == {} && DiscardedOnes(s, ms, verdicts, 0) == {};
  }

  lemma OneMoreCounted(s: Setting, ms: seq<Extracted>, verdicts: nat -> Verdict, n: nat, folded: seq<Detail>)
    requires n < |ms| && CountsFates(s, ms, verdicts, n, folded)
    ensures
      var fate := Fate(s, ms, verdicts, n);
      CountsFates(s, ms, verdicts, n + 1, folded + if fate == Stored then [] else [Detail(fate, ms[n])])
  {
    hide OpensSlot, Fate, IsMerged, IsDiscarded, MergedOnes, DiscardedOnes, Taken, Subjects;
    var d := Detail(Fate(s, ms, verdicts, n), ms[n]);
    MergedNext(s, ms, verdicts, n);
    DiscardedNext(s, ms, verdicts, n);
    FateCounts(s, ms, verdicts, n);
    if d.action == Stored {
      assert folded + [] == folded;
    } else {
      DetailAdded(folded, d);
    }
  }

  /** The merged entries of the loop are those that repeat or are merged, the discarded
      ones those that open their slot and are discarded. */
  lemma {:induction false} FoldedCounts(s: Setting, ms: seq<Extracted>, verdicts: nat -> Verdict, n: nat)
    requires n <= |ms|
    ensures CountsFates(s, ms, verdicts, n, Folded(s, ms, verdicts, n))
  {
    hide Fate, CountsFates, OpensSlot;
    if n == 0 {
      NothingCounted(s, ms, verdicts);
    } else {
      FoldedCounts(s, ms, verdicts, n - 1);
      OneMoreCounted(s, ms, verdicts, n - 1, Folded(s, ms, verdicts, n - 1));
    }
  }

  lemma {:induction false} TakenOfBoth(a: seq<Detail>, b: seq<Detail>, action: Action)
    ensures Taken(a + b, action) == Taken(a, action) + Taken(b, action)
    decreases |b|
  {
    if b == [] {
      assert a + b == a;
    } else {
      assert (a + b)[..|a + b| - 1] == a + b[..|b| - 1];
      TakenOfBoth(a, b[..|b| - 1], action);
    }
  }

  /** Entries of one kind. */
  lemma {:induction false} TakenOfOne(details: seq<Detail>, kind: Action, action: Action)
    requires forall k :: 0 <= k < |details| ==> details[k].action == kind
    ensures Taken(details, action) == if action == kind then |details| else 0
  {
    if details != [] {
      TakenOfOne(details[..|details| - 1], kind, action);
    }
  }
}
