/** Stage three of ingestion: folding the repeats of one extraction. */
module Batch {
  import opened Text
  import opened SlotKeys

  /** An extracted memory; `legacy` is the text its fallback key hashes. */
  datatype Extracted = Extracted(memoryType: string, title: string, content: string, structured: Json, legacy: string)

  /** The two keys that fold a batch, and whose memory it is. */
  datatype Setting = Setting(
    textKey: Extracted -> (string, string),
    slotKey: Extracted -> string,
    organization: nat,
    user: nat)

  /** What the deduplicator decides of one memory. */
  datatype Verdict = Store | Merge | Discard

  datatype Action = MergedInBatch | Merged | Discarded | SlotOccupied | Stored

  /** A detail entry, with the memory it is about. */
  datatype Detail = Detail(action: Action, memory: Extracted)

  /** `_batch_memory_key`. */
  function TextKey(f: Fold, m: Extracted): (string, string) {
    (m.memoryType, Strip(CollapseRuns(FoldText(f, m.title + "\n" + m.content))))
  }

  /** The pipeline's keys. */
  function PipelineSetting(f: Fold, sha: Hash, organization: nat, user: nat): Setting {
    Setting(m => TextKey(f, m), (m: Extracted) => FactKey(f, sha, m.structured, m.legacy), organization, user)
  }

  // ---- which memories go on ------------------------------------------------

  /** No earlier memory of the batch reads the same. */
  predicate IsFirstText(s: Setting, ms: seq<Extracted>, i: nat)
    requires i < |ms|
  {
    forall j :: 0 <= j < i ==> s.textKey(ms[j]) != s.textKey(ms[i])
  }

  /** And no earlier one that was not itself a repeated text names its slot. */
  predicate OpensSlot(s: Setting, ms: seq<Extracted>, i: nat)
    requires i < |ms|
  {
    IsFirstText(s, ms, i) && forall j :: 0 <= j < i && IsFirstText(s, ms, j) ==> s.slotKey(ms[j]) != s.slotKey(ms[i])
  }

  /** What becomes of one memory of the batch. */
  function Fate(s: Setting, ms: seq<Extracted>, verdicts: nat -> Verdict, i: nat): Action
    requires i < |ms|
  {
    if !OpensSlot(s, ms, i) then MergedInBatch
    else match verdicts(i)
      case Discard => Discarded
      case Merge => Merged
      case Store => Stored
  }

  /** The memories left to store, in order. */
  function Valid(s: Setting, ms: seq<Extracted>, verdicts: nat -> Verdict, n: nat): (r: seq<Extracted>)
    requires n <= |ms|
  {
    if n == 0 then []
    else Valid(s, ms, verdicts, n - 1) + if Fate(s, ms, verdicts, n - 1) == Stored then [ms[n - 1]] else []
  }

  /** The entries of the others, in order. */
  function Folded(s: Setting, ms: seq<Extracted>, verdicts: nat -> Verdict, n: nat): (r: seq<Detail>)
    requires n <= |ms|
  {
    if n == 0 then []
    else
      var fate := Fate(s, ms, verdicts, n - 1);
      Folded(s, ms, verdicts, n - 1) + if fate == Stored then [] else [Detail(fate, ms[n - 1])]
  }

  predicate SlotsDiffer(s: Setting, ms: seq<Extracted>) {
    forall a, b :: 0 <= a < b < |ms| ==> s.slotKey(ms[a]) != s.slotKey(ms[b])
  }

  lemma {:induction false} ValidOpened(s: Setting, ms: seq<Extracted>, verdicts: nat -> Verdict, n: nat, a: nat)
      returns (j: nat)
    requires n <= |ms| && a < |Valid(s, ms, verdicts, n)|
    ensures j < n && OpensSlot(s, ms, j) && Valid(s, ms, verdicts, n)[a] == ms[j]
  {
    hide OpensSlot;
    if a < |Valid(s, ms, verdicts, n - 1)| {
      j := ValidOpened(s, ms, verdicts, n - 1, a);
    } else {
      j := n - 1;
    }
  }

  lemma OpenedDiffer(s: Setting, ms: seq<Extracted>, i: nat, j: nat)
    requires j < i < |ms| && OpensSlot(s, ms, i) && OpensSlot(s, ms, j)
    ensures s.slotKey(ms[j]) != s.slotKey(ms[i])
  {
  }

  lemma OneMoreDiffers(s: Setting, before: seq<Extracted>, m: Extracted)
    requires SlotsDiffer(s, before) && forall a :: 0 <= a < |before| ==> s.slotKey(before[a]) != s.slotKey(m)
    ensures SlotsDiffer(s, before + [m])
  {
  }

  /** No two memories left to store name the same slot. */
  lemma {:induction false} ValidSlotsDiffer(s: Setting, ms: seq<Extracted>, verdicts: nat -> Verdict, n: nat)
    requires n <= |ms|
    ensures SlotsDiffer(s, Valid(s, ms, verdicts, n))
  {
    hide OpensSlot, SlotsDiffer;
    if n == 0 {
      assert SlotsDiffer(s, []) by {
        NoneDiffer(s);
      }
    } else {
      ValidSlotsDiffer(s, ms, verdicts, n - 1);
      var before := Valid(s, ms, verdicts, n - 1);
      if Fate(s, ms, verdicts, n - 1) == Stored {
        forall a | 0 <= a < |before|
          ensures s.slotKey(before[a]) != s.slotKey(ms[n - 1])
        {
          var j := ValidOpened(s, ms, verdicts, n - 1, a);
          OpenedDiffer(s, ms, n - 1, j);
        }
        OneMoreDiffers(s, before, ms[n - 1]);
      } else {
        assert Valid(s, ms, verdicts, n) == before;
      }
    }
  }

  lemma NoneDiffer(s: Setting)
    ensures SlotsDiffer(s, [])
  {
  }

  function Subjects(details: seq<Detail>): (r: seq<Extracted>)
    ensures |r| == |details|
    ensures forall i :: 0 <= i < |details| ==> r[i] == details[i].memory
  {
    seq(|details|, i requires 0 <= i < |details| => details[i].memory)
  }

  lemma OneMoreFolded(folded: seq<Detail>, valid: seq<Extracted>, before: seq<Extracted>, d: Detail)
    requires multiset(Subjects(folded)) + multiset(valid) == multiset(before)
    ensures multiset(Subjects(folded + [d])) + multiset(valid) == multiset(before + [d.memory])
  {
    assert Subjects(folded + [d]) == Subjects(folded) + [d.memory];
  }

  lemma OneMoreValid(folded: seq<Extracted>, valid: seq<Extracted>, before: seq<Extracted>, m: Extracted)
    requires multiset(folded) + multiset(valid) == multiset(before)
    ensures multiset(folded) + multiset(valid + [m]) == multiset(before + [m])
  {
  }

  /** Every memory is folded with an entry or left to store, once. */
  lemma {:induction false} FoldedOrValid(s: Setting, ms: seq<Extracted>, verdicts: nat -> Verdict, n: nat)
    requires n <= |ms|
    ensures multiset(Subjects(Folded(s, ms, verdicts, n))) + multiset(Valid(s, ms, verdicts, n)) == multiset(ms[..n])
    ensures |Folded(s, ms, verdicts, n)| + |Valid(s, ms, verdicts, n)| == n
  {
    hide Fate, Subjects;
    if n == 0 {
      assert Subjects([]) == [];
    } else {
      var folded, valid, m := Folded(s, ms, verdicts, n - 1), Valid(s, ms, verdicts, n - 1), ms[n - 1];
      FoldedOrValid(s, ms, verdicts, n - 1);
      assert ms[..n] == ms[..n - 1] + [m];
      if Fate(s, ms, verdicts, n - 1) == Stored {
        assert Folded(s, ms, verdicts, n) == folded;
        OneMoreValid(Subjects(folded), valid, ms[..n - 1], m);
      } else {
        assert Valid(s, ms, verdicts, n) == valid;
        OneMoreFolded(folded, valid, ms[..n - 1], Detail(Fate(s, ms, verdicts, n - 1), m));
      }
    }
  }

  // ---- the keys seen so far ------------------------------------------------

  function SeenTexts(s: Setting, ms: seq<Extracted>, n: nat): set<(string, string)>
    requires n <= |ms|
  {
    if n == 0 then {} else SeenTexts(s, ms, n - 1) + {s.textKey(ms[n - 1])}
  }

  function OpenSlots(s: Setting, ms: seq<Extracted>, n: nat): set<string>
    requires n <= |ms|
  {
    if n == 0 then {}
    else
      OpenSlots(s, ms, n - 1) + if s.textKey(ms[n - 1]) !in SeenTexts(s, ms, n - 1) then {s.slotKey(ms[n - 1])} else {}
  }

  lemma {:induction false} SeenTextsAre(s: Setting, ms: seq<Extracted>, n: nat, k: (string, string))
    requires n <= |ms|
    ensures k in SeenTexts(s, ms, n) <==> exists j :: 0 <= j < n && s.textKey(ms[j]) == k
  {
    if n > 0 {
      SeenTextsAre(s, ms, n - 1, k);
      assert k == s.textKey(ms[n - 1]) ==> exists j :: 0 <= j < n && s.textKey(ms[j]) == k;
    }
  }

  lemma FirstTextUnseen(s: Setting, ms: seq<Extracted>, i: nat)
    requires i < |ms|
    ensures IsFirstText(s, ms, i) <==> s.textKey(ms[i]) !in SeenTexts(s, ms, i)
  {
    SeenTextsAre(s, ms, i, s.textKey(ms[i]));
  }

  lemma {:induction false} OpenSlotsAre(s: Setting, ms: seq<Extracted>, n: nat, k: string)
    requires n <= |ms|
    ensures k in OpenSlots(s, ms, n) <==> exists j :: 0 <= j < n && IsFirstText(s, ms, j) && s.slotKey(ms[j]) == k
  {
    hide IsFirstText;
    if n > 0 {
      OpenSlotsAre(s, ms, n - 1, k);
      FirstTextUnseen(s, ms, n - 1);
      if IsFirstText(s, ms, n - 1) && k == s.slotKey(ms[n - 1]) {
        assert exists j :: 0 <= j < n && IsFirstText(s, ms, j) && s.slotKey(ms[j]) == k;
      }
    }
  }

  /** Looking both keys up decides whether a memory opens a slot. */
  lemma LookupsDecide(s: Setting, ms: seq<Extracted>, i: nat)
    requires i < |ms|
    ensures OpensSlot(s, ms, i) <==>
      s.textKey(ms[i]) !in SeenTexts(s, ms, i) && s.slotKey(ms[i]) !in OpenSlots(s, ms, i)
  {
    hide IsFirstText;
    FirstTextUnseen(s, ms, i);
    OpenSlotsAre(s, ms, i, s.slotKey(ms[i]));
  }

  // ---- the report ----------------------------------------------------------

  function Taken(details: seq<Detail>, action: Action): nat {
    if details == [] then 0
    else Taken(details[..|details| - 1], action) + if details[|details| - 1].action == action then 1 else 0
  }

  lemma DetailAdded(details: seq<Detail>, d: Detail)
    ensures Subjects(details + [d]) == Subjects(details) + [d.memory]
    ensures forall a :: Taken(details + [d], a) == Taken(details, a) + if a == d.action then 1 else 0
  {
    assert (details + [d])[..|details|] == details;
  }

  class OrchestrationResult {
    var extracted: nat
    var stored: nat
    var merged: nat
    var discarded: nat
    var details: seq<Detail>

    constructor ()
      ensures extracted == stored == merged == discarded == 0 && details == []
    {
      extracted, stored, merged, discarded, details := 0, 0, 0, 0, [];
    }

    /** Each counter is the number of its entries, but for the stored one, which
        is set at the end. */
    ghost predicate Counts()
      reads this
    {
      && merged == Taken(details, MergedInBatch) + Taken(details, Merged)
      && discarded == Taken(details, Discarded) + Taken(details, SlotOccupied)
    }

    /** Every extracted memory has exactly one entry and is counted once. */
    ghost predicate Accounts(ms: seq<Extracted>)
      reads this
    {
      && extracted == |ms|
      && extracted == stored + merged + discarded
      && stored == Taken(details, Stored)
      && Counts()
      && multiset(Subjects(details)) == multiset(ms)
    }

    method Note(action: Action, m: Extracted)
      modifies this`merged, this`discarded, this`details
      ensures details == old(details) + [Detail(action, m)]
      ensures merged == old(merged) + if action == MergedInBatch || action == Merged then 1 else 0
      ensures discarded == old(discarded) + if action == Discarded || action == SlotOccupied then 1 else 0
      ensures old(Counts()) ==> Counts()
      ensures Subjects(details) == Subjects(old(details)) + [m]
      ensures Taken(details, Stored) == Taken(old(details), Stored) + if action == Stored then 1 else 0
    {
      DetailAdded(details, Detail(action, m));
      details := details + [Detail(action, m)];
      if action == MergedInBatch || action == Merged {
        merged := merged + 1;
      } else if action == Discarded || action == SlotOccupied {
        discarded := discarded + 1;
      }
    }
  }

  /** One memory of the loop: its keys looked up and claimed, then the
      deduplicator's word. */
  method NextFate(s: Setting, ms: seq<Extracted>, verdicts: nat -> Verdict, i: nat,
                  seen: map<(string, string), Extracted>, slots: map<string, Extracted>)
      returns (fate: Action, batchSeen: map<(string, string), Extracted>, batchSlots: map<string, Extracted>)
    requires i < |ms| && seen.Keys == SeenTexts(s, ms, i) && slots.Keys == OpenSlots(s, ms, i)
    ensures fate == Fate(s, ms, verdicts, i)
    ensures batchSeen.Keys == SeenTexts(s, ms, i + 1) && batchSlots.Keys == OpenSlots(s, ms, i + 1)
  {
    var mem := ms[i];
    batchSeen, batchSlots := seen, slots;
    LookupsDecide(s, ms, i);
    var batchKey := s.textKey(mem);
    if batchKey in batchSeen {
      return MergedInBatch, batchSeen, batchSlots;
    }
    batchSeen := batchSeen[batchKey := mem];
    var slotKey := s.slotKey(mem);
    if slotKey in batchSlots {
      return MergedInBatch, batchSeen, batchSlots;
    }
    batchSlots := batchSlots[slotKey := mem];
    fate := match verdicts(i) case Discard => Discarded case Merge => Merged case Store => Stored;
  }

  lemma FatesNext(s: Setting, ms: seq<Extracted>, verdicts: nat -> Verdict, i: nat)
    requires i < |ms|
    ensures Fate(s, ms, verdicts, i) == Stored ==>
      && Valid(s, ms, verdicts, i + 1) == Valid(s, ms, verdicts, i) + [ms[i]]
      && Folded(s, ms, verdicts, i + 1) == Folded(s, ms, verdicts, i)
    ensures Fate(s, ms, verdicts, i) != Stored ==>
      && Valid(s, ms, verdicts, i + 1) == Valid(s, ms, verdicts, i)
      && Folded(s, ms, verdicts, i + 1) == Folded(s, ms, verdicts, i) + [Detail(Fate(s, ms, verdicts, i), ms[i])]
  {
    hide Fate;
  }

  /** The loop over the extraction. */
  method FoldBatch(s: Setting, ms: seq<Extracted>, verdicts: nat -> Verdict, result: OrchestrationResult)
      returns (valid: seq<Extracted>)
    requires result.merged == result.discarded == 0 && result.details == []
    modifies result`merged, result`discarded, result`details
    ensures valid == Valid(s, ms, verdicts, |ms|)
    ensures result.Counts() && Taken(result.details, Stored) == 0
    ensures result.details == Folded(s, ms, verdicts, |ms|)
    ensures result.merged + result.discarded == |result.details|
  {
    valid := [];
    var batchSeen: map<(string, string), Extracted>, batchSlots: map<string, Extracted> := map[], map[];
    assert result.Counts() && Taken(result.details, Stored) == 0;
    assert Valid(s, ms, verdicts, 0) == [] && Folded(s, ms, verdicts, 0) == [];
    assert SeenTexts(s, ms, 0) == {} && OpenSlots(s, ms, 0) == {};
    hide Fate, Taken, Valid, Folded, SeenTexts, OpenSlots, OrchestrationResult.Counts;
    for i := 0 to |ms|
      invariant valid == Valid(s, ms, verdicts, i)
      invariant result.Counts() && Taken(result.details, Stored) == 0
      invariant result.details == Folded(s, ms, verdicts, i)
      invariant result.merged + result.discarded == |result.details|
      invariant batchSeen.Keys == SeenTexts(s, ms, i) && batchSlots.Keys == OpenSlots(s, ms, i)
    {
      var fate;
      fate, batchSeen, batchSlots := NextFate(s, ms, verdicts, i, batchSeen, batchSlots);
      FatesNext(s, ms, verdicts, i);
      if fate == Stored {
        valid := valid + [ms[i]];
      } else {
        result.Note(fate, ms[i]);
      }
    }
  }
}
