/** Keys said in terms of a payload's own fields. */
module SlotFields {
  import opened Attempts
  import opened Text
  import opened SlotKeys
  import opened ClaimMatching

  // ---- the explicit name of a slot -----------------------------------------

  /** A field names a slot by its `key`, when it is a mapping that has one, and by
      itself otherwise; nothing falsy names one. */
  predicate NamesBy(structured: Json, field: string, slot: Json) {
    var v := structured.Get(field);
    && v.Truthy() && slot.Truthy()
    && slot == if v.Obj? && "key" in v.fields && v.fields["key"].Truthy() then v.fields["key"] else v
  }

  /** `fact_key` names the slot, or `truth_key` where that is missing or falsy. */
  lemma ExplicitSlotMeans(structured: Json, slot: Json)
    ensures ExplicitSlot(structured) == Some(slot) <==>
      NamesBy(structured, "fact_key", slot)
      || (!structured.Get("fact_key").Truthy() && NamesBy(structured, "truth_key", slot))
    ensures ExplicitSlot(structured).None? <==>
      !structured.Get("fact_key").Truthy() && !structured.Get("truth_key").Truthy()
  {
  }

  // ---- the fact ------------------------------------------------------------

  /** The folded words of a field; only texts and numbers have any. */
  function FieldWords(f: Fold, fact: Json, field: string): seq<string> {
    match fact.Get(field)
    case Str(s) => Essence(f, s)
    case Number(_, text) => Essence(f, text)
    case _ => []
  }

  lemma ComponentIs(f: Fold, fact: Json, field: string)
    requires IsFolding(f)
    ensures Words(Component(f, fact.Get(field))) == FieldWords(f, fact, field)
    ensures Component(f, fact.Get(field)) == "" <==> FieldWords(f, fact, field) == []
  {
    hide Words, Normalised, Essence, IsFolding, IsWord, IsFolded;
    ComponentWords(f, fact.Get(field));
    var v := fact.Get(field);
    if v.Number? || v.Str? {
      NormalisedIsEssence(f, v.ToText());
      EssenceIsFolded(f, v.ToText());
      WordsOfJoin(Essence(f, v.ToText()));
    } else {
      NoWords();
    }
  }

  lemma NoWords()
    ensures Words("") == []
  {
  }

  /** The folded words of a fact that names a slot: it has a subject, a predicate and
      an object. */
  function FactWords(f: Fold, structured: Json): Option<seq<string>> {
    var fact := structured.Get("fact");
    var subject, verb := FieldWords(f, fact, "subject"), FieldWords(f, fact, "predicate");
    var context, object_ := FieldWords(f, fact, "context"), FieldWords(f, fact, "object");
    if fact.Obj? && subject != [] && verb != [] && object_ != [] then Some(subject + verb + context + object_)
    else None
  }

  lemma SlotWordsAre(f: Fold, structured: Json)
    requires IsFolding(f)
    ensures ExplicitSlot(structured).None? ==> SlotWords(f, structured) == FactWords(f, structured)
  {
    hide Words, Component, FieldWords, ExplicitSlot, IsFolding;
    var fact := structured.Get("fact");
    ComponentIs(f, fact, "subject");
    ComponentIs(f, fact, "predicate");
    ComponentIs(f, fact, "context");
    ComponentIs(f, fact, "object");
  }

  /** The key of a memory is the prefixed digest of the folded words of the slot it
      names, one space apart: of its explicit name if it carries one, and otherwise
      of its fact's subject, predicate, context and object in that order. It is the
      digest of the legacy text exactly when there are no such words. */
  lemma FactKeyMeans(f: Fold, sha: Hash, structured: Json, legacy: string)
    requires IsFolding(f)
    ensures
      var words := match ExplicitSlot(structured)
                   case Some(slot) => Some(Essence(f, slot.ToText()))
                   case None => FactWords(f, structured);
      FactKey(f, sha, structured, legacy)
      == if words.Some? && words.value != [] then "sfx2:" + sha(Join(words.value)) else sha(legacy)
  {
    hide StructuralKey, ExplicitSlot, Essence, FieldWords, Words;
    KeyIsDigestOfWords(f, sha, structured);
    SlotWordsAre(f, structured);
  }

  // ---- claims --------------------------------------------------------------

  /** What a claim's field shows: falsy values show nothing. */
  function Shown(claim: Json, field: string): string {
    var v := claim.Get(field);
    if v.Truthy() then v.ToText() else ""
  }

  /** Two claims have the same key exactly when their categories, their statuses and
      their objects each have the same folded words. */
  lemma ClaimKeysAlike(f: Fold, a: Json, b: Json)
    requires IsFolding(f)
    ensures ClaimKey(f, a) == ClaimKey(f, b) <==>
      && Essence(f, Shown(a, "category")) == Essence(f, Shown(b, "category"))
      && Essence(f, Shown(a, "status")) == Essence(f, Shown(b, "status"))
      && Essence(f, Shown(a, "object")) == Essence(f, Shown(b, "object"))
  {
    hide Normalised, Essence;
    NormalisedAlike(f, Shown(a, "category"), Shown(b, "category"));
    NormalisedAlike(f, Shown(a, "status"), Shown(b, "status"));
    NormalisedAlike(f, Shown(a, "object"), Shown(b, "object"));
  }
}
