/** Ingestion with the pipeline's own text and slot keys: what folding a batch and
    refusing a run mean in terms of the facts that memories state. */
module PipelineKeys {
  import opened Attempts
  import opened Text
  import opened SlotKeys
  import opened MemoryTable
  import opened Backfill
  import opened Batch
  import opened Orchestrator

  // ---- text keys -----------------------------------------------------------

  lemma LeadingSpace(c: char, r: string)
    requires IsSpace(c)
    ensures Words([c] + r) == Words(r)
  {
    assert ([c] + r)[1..] == r;
    assert SkipSpace([c] + r) == SkipSpace(r);
  }

  lemma FoldStartsWithSpace(f: Fold, s: string)
    requires IsFolding(f) && s != [] && IsSpace(s[0])
    ensures FoldText(f, s) == [s[0]] + FoldText(f, s[1..])
  {
  }

  /** Folding a text folds its words. */
  lemma {:induction false} FoldKeepsWords(f: Fold, s: string)
    requires IsFolding(f)
    ensures Words(FoldText(f, s)) == Essence(f, s)
    decreases |s|
  {
    if s == [] {
      assert FoldText(f, s) == [] && Words(s) == [];
    } else if IsSpace(s[0]) {
      FoldStartsWithSpace(f, s);
      FoldKeepsWords(f, s[1..]);
      LeadingSpace(s[0], FoldText(f, s[1..]));
      LeadingSpace(s[0], s[1..]);
      assert [s[0]] + s[1..] == s;
    } else {
      var n := WordEnd(s);
      var w, rest := s[..n], s[n..];
      assert s == w + rest;
      assert rest != [] ==> rest[0] == s[n];
      FoldAppend(f, w, rest);
      FoldWord(f, w);
      if rest != [] {
        FoldStartsWithSpace(f, rest);
      }
      hide Words, FoldText, IsSpace;
      WordsOfWord(w, rest);
      WordsOfWord(FoldText(f, w), FoldText(f, rest));
      FoldKeepsWords(f, rest);
      FoldWordsOfMore(f, w, Words(rest));
    }
  }

  lemma FoldWordsOfMore(f: Fold, w: string, ws: seq<string>)
    ensures FoldWords(f, [w] + ws) == [FoldText(f, w)] + FoldWords(f, ws)
  {
  }

  /** Two memories are folded as the same text exactly when they have one type and
      the folded words of title and content are the same. */
  lemma TextKeysAlike(f: Fold, a: Extracted, b: Extracted)
    requires IsFolding(f)
    ensures TextKey(f, a) == TextKey(f, b) <==>
      && a.memoryType == b.memoryType
      && Essence(f, a.title + "\n" + a.content) == Essence(f, b.title + "\n" + b.content)
  {
    hide CollapseRuns, Strip, Essence, FoldText;
    var s, t := a.title + "\n" + a.content, b.title + "\n" + b.content;
    FoldKeepsWords(f, s);
    FoldKeepsWords(f, t);
    CollapseThenStrip(FoldText(f, s));
    CollapseThenStrip(FoldText(f, t));
    WordsAreWords(FoldText(f, s));
    WordsAreWords(FoldText(f, t));
    WordsOfJoin(Words(FoldText(f, s)));
    WordsOfJoin(Words(FoldText(f, t)));
  }

  // ---- slot keys -----------------------------------------------------------

  /** The memory has a structural key, and so not a text-hash one. */
  predicate NamesSlot(f: Fold, m: Extracted) {
    SlotWords(f, m.structured).Some?
  }

  lemma SlotKeyOf(f: Fold, sha: Hash, organization: nat, user: nat, m: Extracted)
    requires IsFolding(f) && NamesSlot(f, m)
    ensures Some(PipelineSetting(f, sha, organization, user).slotKey(m)) == StructuralKey(f, sha, m.structured)
    ensures StructuralKey(f, sha, m.structured).Some?
  {
    hide StructuralKey, SlotWords;
    KeyIsDigestOfWords(f, sha, m.structured);
  }

  /** Whatever the batch, no two of the memories left to store name their slots by
      the same folded words. */
  lemma StoredSlotsDiffer(f: Fold, sha: Hash, organization: nat, user: nat, ms: seq<Extracted>,
                          verdicts: nat -> Verdict, a: nat, b: nat)
    requires IsFolding(f)
    requires var valid := Valid(PipelineSetting(f, sha, organization, user), ms, verdicts, |ms|);
      a < b < |valid| && NamesSlot(f, valid[a]) && NamesSlot(f, valid[b])
    ensures var valid := Valid(PipelineSetting(f, sha, organization, user), ms, verdicts, |ms|);
      SlotWords(f, valid[a].structured) != SlotWords(f, valid[b].structured)
  {
    hide StructuralKey, SlotWords, Valid, PipelineSetting;
    var s := PipelineSetting(f, sha, organization, user);
    var valid := Valid(s, ms, verdicts, |ms|);
    ValidSlotsDiffer(s, ms, verdicts, |ms|);
    SlotKeyOf(f, sha, organization, user, valid[a]);
    SlotKeyOf(f, sha, organization, user, valid[b]);
    assert s.slotKey(valid[a]) != s.slotKey(valid[b]);
    KeyIsDigestOfWords(f, sha, valid[a].structured);
    KeyIsDigestOfWords(f, sha, valid[b].structured);
  }

  /** Every stored key of the new family is the one its row's payload has: what a
      backfill leaves. */
  predicate OnFormula(f: Fold, sha: Hash, rows: seq<Row>) {
    forall i :: 0 <= i < |rows| && IsStructural(rows[i].key) ==>
      rows[i].key == StructuralKey(f, sha, rows[i].structured)
  }

  /** A current row of another type, keyed by the formula, whose slot has the same
      folded words. */
  predicate StatedUnderOtherType(f: Fold, organization: nat, user: nat, rows: seq<Row>, m: Extracted) {
    exists i :: 0 <= i < |rows| && rows[i].current && rows[i].organization == organization && rows[i].user == user
                && rows[i].memoryType != m.memoryType
                && IsStructural(rows[i].key) && SlotWords(f, rows[i].structured) == SlotWords(f, m.structured)
  }

  lemma SameKeySameWords(f: Fold, sha: Hash, row: Row, m: Json)
    requires IsFolding(f) && IsInjective(sha) && StructuralKey(f, sha, m).Some?
    requires IsStructural(row.key) ==> row.key == StructuralKey(f, sha, row.structured)
    ensures row.key == StructuralKey(f, sha, m)
            <==> IsStructural(row.key) && SlotWords(f, row.structured) == SlotWords(f, m)
  {
    hide StructuralKey, SlotWords;
    StructuralKeyHasPrefix(f, sha, m);
    KeysShared(f, sha, m, row.structured);
  }

  /** A current row of another type holds the text hash that is the memory's key. */
  predicate HashedUnderOtherType(sha: Hash, organization: nat, user: nat, rows: seq<Row>, m: Extracted) {
    exists i :: 0 <= i < |rows| && rows[i].current && rows[i].organization == organization && rows[i].user == user
                && rows[i].memoryType != m.memoryType && rows[i].key == Some(sha(m.legacy))
  }

  lemma HashKeyOf(f: Fold, sha: Hash, organization: nat, user: nat, m: Extracted)
    requires IsFolding(f) && !NamesSlot(f, m)
    ensures PipelineSetting(f, sha, organization, user).slotKey(m) == sha(m.legacy)
  {
    hide StructuralKey, SlotWords;
    KeyIsDigestOfWords(f, sha, m.structured);
  }

  /** On a table whose keys are on the formula, a memory that names a slot refuses
      its run exactly when a current row of another type states the same words: no
      matter how either is spaced, cased or cut. One that names none does exactly
      when such a row holds its text hash. */
  lemma RefusalIsBySlotWords(f: Fold, sha: Hash, organization: nat, user: nat, rows: seq<Row>, m: Extracted)
    requires IsFolding(f) && IsInjective(sha) && OnFormula(f, sha, rows)
    ensures NamesHeldSlot(PipelineSetting(f, sha, organization, user), rows, m)
            <==> if NamesSlot(f, m) then StatedUnderOtherType(f, organization, user, rows, m)
                 else HashedUnderOtherType(sha, organization, user, rows, m)
  {
    hide StructuralKey, SlotWords, PipelineSetting, IsStructural;
    var s := PipelineSetting(f, sha, organization, user);
    assert s.organization == organization && s.user == user by {
      SettingIsTheirs(f, sha, organization, user);
    }
    if NamesSlot(f, m) {
      SlotKeyOf(f, sha, organization, user, m);
      forall i | 0 <= i < |rows|
        ensures rows[i].key == Some(s.slotKey(m))
                <==> IsStructural(rows[i].key) && SlotWords(f, rows[i].structured) == SlotWords(f, m.structured)
      {
        SameKeySameWords(f, sha, rows[i], m.structured);
      }
    } else {
      HashKeyOf(f, sha, organization, user, m);
    }
  }

  lemma SettingIsTheirs(f: Fold, sha: Hash, organization: nat, user: nat)
    ensures PipelineSetting(f, sha, organization, user).organization == organization
    ensures PipelineSetting(f, sha, organization, user).user == user
  {
  }
}
