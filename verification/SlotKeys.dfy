/** Fact-slot keys: which memories share one, and which cannot. */
module SlotKeys {
  import opened Attempts
  import opened Text

  // ---- payloads ------------------------------------------------------------

  /** A JSON value as the key code sees it; `text` is Python's `str()` of it. */
  datatype Json =
    | Null
    | Flag(b: bool)
    | Number(zero: bool, text: string)
    | Str(s: string)
    | Arr(nonEmpty: bool, text: string)
    | Obj(fields: map<string, Json>, text: string)
  {
    /** Python truthiness. */
    predicate Truthy() {
      match this
      case Null => false
      case Flag(b) => b
      case Number(zero, _) => !zero
      case Str(s) => s != ""
      case Arr(nonEmpty, _) => nonEmpty
      case Obj(fields, _) => |fields| > 0
    }

    /** `str(value)`. */
    function ToText(): string {
      match this
      case Null => "None"
      case Flag(b) => if b then "True" else "False"
      case Number(_, text) => text
      case Str(s) => s
      case Arr(_, text) => text
      case Obj(_, text) => text
    }

    /** `value.get(key)` on a mapping; on anything else there is no key. */
    function Get(key: string): Json {
      if Obj? && key in fields then fields[key] else Null
    }
  }

  // ---- case folding --------------------------------------------------------

  /** `str.casefold()` acts character by character. */
  type Fold = char -> string

  function FoldText(f: Fold, s: string): string {
    if s == [] then [] else f(s[0]) + FoldText(f, s[1..])
  }

  /** A character folds to characters that fold to themselves, whitespace to
      itself and nothing else to whitespace. */
  ghost predicate IsFolding(f: Fold) {
    && (forall c :: IsSpace(c) ==> f(c) == [c])
    && (forall c :: !IsSpace(c) ==>
          f(c) != [] && forall i :: 0 <= i < |f(c)| ==> !IsSpace(f(c)[i]) && f(f(c)[i]) == [f(c)[i]])
  }

  function FoldWords(f: Fold, ws: seq<string>): (r: seq<string>)
    ensures |r| == |ws|
    ensures forall i :: 0 <= i < |ws| ==> r[i] == FoldText(f, ws[i])
  {
    seq(|ws|, i requires 0 <= i < |ws| => FoldText(f, ws[i]))
  }

  predicate IsFolded(f: Fold, s: string) {
    forall i :: 0 <= i < |s| ==> f(s[i]) == [s[i]]
  }

  lemma {:induction false} FoldFolded(f: Fold, s: string)
    requires IsFolded(f, s)
    ensures FoldText(f, s) == s
  {
    if s != [] {
      var rest := s[1..];
      assert forall i :: 0 <= i < |rest| ==> rest[i] == s[i + 1];
      FoldFolded(f, rest);
      assert f(s[0]) == [s[0]] && s == [s[0]] + rest;
    }
  }

  lemma {:induction false} FoldAppend(f: Fold, a: string, b: string)
    ensures FoldText(f, a + b) == FoldText(f, a) + FoldText(f, b)
  {
    if a == [] {
      assert a + b == b;
    } else {
      assert (a + b)[1..] == a[1..] + b;
      FoldAppend(f, a[1..], b);
    }
  }

  lemma {:induction false} FoldWord(f: Fold, w: string)
    requires IsFolding(f)
    requires forall i :: 0 <= i < |w| ==> !IsSpace(w[i])
    ensures IsFolded(f, FoldText(f, w))
    ensures forall i :: 0 <= i < |FoldText(f, w)| ==> !IsSpace(FoldText(f, w)[i])
    ensures w != [] ==> FoldText(f, w) != []
  {
    if w != [] {
      assert forall i :: 0 <= i < |w[1..]| ==> w[1..][i] == w[i + 1];
      FoldWord(f, w[1..]);
    }
  }

  predicate AreFoldedWords(f: Fold, ws: seq<string>) {
    AreWords(ws) && forall i :: 0 <= i < |ws| ==> IsFolded(f, ws[i])
  }

  lemma FoldedWords(f: Fold, ws: seq<string>)
    requires IsFolding(f) && AreWords(ws)
    ensures AreFoldedWords(f, FoldWords(f, ws))
  {
    forall i | 0 <= i < |ws|
      ensures IsWord(FoldWords(f, ws)[i]) && IsFolded(f, FoldWords(f, ws)[i])
    {
      assert IsWord(ws[i]);
      FoldWord(f, ws[i]);
    }
  }

  lemma FoldWordsAgain(f: Fold, ws: seq<string>)
    requires AreFoldedWords(f, ws)
    ensures FoldWords(f, ws) == ws
  {
    forall i | 0 <= i < |ws|
      ensures FoldText(f, ws[i]) == ws[i]
    {
      FoldFolded(f, ws[i]);
    }
  }

  lemma {:induction false} FoldJoin(f: Fold, ws: seq<string>)
    requires IsFolding(f)
    ensures FoldText(f, Join(ws)) == Join(FoldWords(f, ws))
  {
    if |ws| > 1 {
      assert FoldWords(f, ws)[1..] == FoldWords(f, ws[1..]);
      FoldAppend(f, ws[0] + " ", Join(ws[1..]));
      FoldAppend(f, ws[0], " ");
      assert IsSpace(' ') && FoldText(f, " ") == " ";
      FoldJoin(f, ws[1..]);
    }
  }

  // ---- normalised text -----------------------------------------------------

  /** `re.sub(r"\s+", " ", s).strip().casefold()`. */
  function Normalised(f: Fold, s: string): string {
    FoldText(f, Strip(CollapseRuns(s)))
  }

  /** The folded words of a text: all that normalising keeps of it. */
  function Essence(f: Fold, s: string): seq<string> {
    FoldWords(f, Words(s))
  }

  lemma EssenceIsFolded(f: Fold, s: string)
    requires IsFolding(f)
    ensures AreFoldedWords(f, Essence(f, s))
  {
    WordsAreWords(s);
    FoldedWords(f, Words(s));
  }

  /** Normalising keeps exactly the folded words, one space apart: spacing and
      case do not matter, and normalising again changes nothing. */
  lemma NormalisedIsEssence(f: Fold, s: string)
    requires IsFolding(f)
    ensures Normalised(f, s) == Join(Essence(f, s))
    ensures Essence(f, Normalised(f, s)) == Essence(f, s)
    ensures Normalised(f, Normalised(f, s)) == Normalised(f, s)
  {
    CollapseThenStrip(s);
    FoldJoin(f, Words(s));
    EssenceIsFolded(f, s);
    var ws := Essence(f, s);
    WordsOfJoin(ws);
    FoldWordsAgain(f, ws);
    CollapseThenStrip(Join(ws));
    FoldJoin(f, ws);
  }

  lemma EmptyJoin(ws: seq<string>)
    requires AreWords(ws)
    ensures Join(ws) == "" <==> ws == []
  {
    if ws != [] {
      JoinStartsWithWord(ws);
    }
  }

  /** Two texts normalise alike exactly when their folded words are the same. */
  lemma NormalisedAlike(f: Fold, s: string, t: string)
    requires IsFolding(f)
    ensures Normalised(f, s) == Normalised(f, t) <==> Essence(f, s) == Essence(f, t)
  {
    NormalisedIsEssence(f, s);
    NormalisedIsEssence(f, t);
  }

  // ---- slots ---------------------------------------------------------------

  /** SHA-256 as a function to its hexadecimal digest. */
  type Hash = string -> string

  const PREFIX := "sfx2:"

  ghost predicate IsDigest(sha: Hash) {
    forall s :: |sha(s)| == 64
  }

  ghost predicate IsInjective(sha: Hash) {
    forall s, t :: sha(s) == sha(t) ==> s == t
  }

  /** `_canonical_component`. */
  function Component(f: Fold, v: Json): string {
    if v.Null? || v.Flag? || v.Arr? || v.Obj? then "" else Normalised(f, v.ToText())
  }

  /** `_slot_digest`. */
  function SlotDigest(f: Fold, sha: Hash, slot: string): Option<string> {
    var normalized := Normalised(f, slot);
    if normalized == "" then None else Some(PREFIX + sha(normalized))
  }

  /** `"\x1f".join(parts)`. */
  function JoinParts(parts: seq<string>): string {
    if parts == [] then "" else if |parts| == 1 then parts[0] else parts[0] + "\U{1F}" + JoinParts(parts[1..])
  }

  datatype Triple = Triple(subject: string, predicateName: string, context: string, objectName: string)

  function CanonicalTriple(f: Fold, fact: Json): Triple {
    Triple(Component(f, fact.Get("subject")), Component(f, fact.Get("predicate")),
           Component(f, fact.Get("context")), Component(f, fact.Get("object")))
  }

  predicate IsComplete(t: Triple) {
    t.subject != "" && t.predicateName != "" && t.objectName != ""
  }

  function Parts(t: Triple): seq<string> {
    [t.subject, t.predicateName] + (if t.context != "" then [t.context] else []) + [t.objectName]
  }

  /** The explicit slot name, when the payload carries a truthy one. */
  function ExplicitSlot(structured: Json): Option<Json> {
    var first := structured.Get("fact_key");
    var named := if first.Truthy() then first else structured.Get("truth_key");
    var slot := if named.Obj? && named.Get("key").Truthy() then named.Get("key") else named;
    if slot.Truthy() then Some(slot) else None
  }

  /** `structural_fact_key_from_structured`. */
  function StructuralKey(f: Fold, sha: Hash, structured: Json): Option<string> {
    match ExplicitSlot(structured)
    case Some(slot) => SlotDigest(f, sha, slot.ToText())
    case None =>
      if !structured.Get("fact").Obj? then None
      else
        var t := CanonicalTriple(f, structured.Get("fact"));
        if !IsComplete(t) then None else SlotDigest(f, sha, JoinParts(Parts(t)))
  }

  /** `fact_key_for_memory`; the legacy text names organization, user, type,
      entities and content. */
  function FactKey(f: Fold, sha: Hash, structured: Json, legacy: string): string {
    var key := StructuralKey(f, sha, structured);
    if key.Some? then key.value else sha(legacy)
  }

  // ---- what a key depends on -----------------------------------------------

  /** The folded words of a triple, in order. */
  function TripleWords(t: Triple): seq<string> {
    Words(t.subject) + Words(t.predicateName) + Words(t.context) + Words(t.objectName)
  }

  lemma SameWords(s: string, t: string)
    requires SkipSpace(s) == SkipSpace(t)
    ensures Words(s) == Words(t)
  {
  }

  lemma {:induction false} SkipAcross(a: string, tail: string)
    requires tail != [] && IsSpace(tail[0])
    ensures SkipSpace(a) == [] ==> SkipSpace(a + tail) == SkipSpace(tail)
    ensures SkipSpace(a) != [] ==> SkipSpace(a + tail) == SkipSpace(a) + tail == SkipSpace(SkipSpace(a) + tail)
  {
    if a == [] {
      assert a + tail == tail;
    } else if IsSpace(a[0]) {
      assert (a + tail)[1..] == a[1..] + tail;
      SkipAcross(a[1..], tail);
    }
  }

  lemma FirstWordAcross(t: string, tail: string)
    requires t != [] && !IsSpace(t[0]) && tail != [] && IsSpace(tail[0])
    ensures Words(t + tail) == [t[..WordEnd(t)]] + Words(t[WordEnd(t)..] + tail)
  {
    var n := WordEnd(t);
    var w, rest := t[..n], t[n..];
    assert IsWord(w) && t == w + rest;
    assert rest != [] ==> IsSpace(rest[0]);
    hide IsSpace, Words, WordEnd, IsWord;
    assert IsSpace((rest + tail)[0]) by {
      assert (rest + tail)[0] == if rest == [] then tail[0] else rest[0];
    }
    Associate(w, rest, tail);
    WordsOfWord(w, rest + tail);
  }

  lemma Associate(a: string, b: string, c: string)
    ensures a + b + c == a + (b + c)
  {
  }

  /** Words do not run across whitespace. */
  lemma {:induction false} WordsAcross(a: string, tail: string)
    requires tail != [] && IsSpace(tail[0])
    ensures Words(a + tail) == Words(a) + Words(tail)
    decreases |a|
  {
    hide IsSpace;
    var t := SkipSpace(a);
    SkipAcross(a, tail);
    if t == [] {
      SameWords(a + tail, tail);
    } else {
      SameWords(a + tail, t + tail);
      FirstWordAcross(t, tail);
      WordsAcross(t[WordEnd(t)..], tail);
    }
  }

  /** The separator and what follows it. */
  function Separated(s: string): string {
    "\U{1F}" + s
  }

  lemma SeparatedWords(a: string, s: string)
    ensures Words(a + Separated(s)) == Words(a) + Words(s)
  {
    var tail := Separated(s);
    assert IsSpace(tail[0]) && tail[1..] == s;
    WordsAcross(a, tail);
    SameWords(tail, s);
  }

  function JoinedTail(t: Triple): string {
    if t.context != "" then t.context + Separated(t.objectName) else t.objectName
  }

  lemma JoinedParts(t: Triple)
    ensures JoinParts(Parts(t)) == t.subject + Separated(t.predicateName + Separated(JoinedTail(t)))
  {
    var ends := if t.context != "" then [t.context, t.objectName] else [t.objectName];
    assert Parts(t) == [t.subject, t.predicateName] + ends;
    assert Parts(t)[1..] == [t.predicateName] + ends && Parts(t)[1..][1..] == ends;
    assert t.context != "" ==> ends[1..] == [t.objectName];
    assert JoinParts(ends) == JoinedTail(t);
    assert JoinParts(Parts(t)[1..]) == t.predicateName + Separated(JoinedTail(t));
  }

  lemma TailWords(t: Triple)
    ensures Words(JoinedTail(t)) == Words(t.context) + Words(t.objectName)
  {
    if t.context != "" {
      SeparatedWords(t.context, t.objectName);
    } else {
      assert Words("") == [];
    }
  }

  /** The separator is whitespace to the digest, so the words run together. */
  lemma PartsRunTogether(t: Triple)
    ensures Words(JoinParts(Parts(t))) == TripleWords(t)
  {
    hide Words, JoinParts, Parts, JoinedTail, Separated;
    JoinedParts(t);
    TailWords(t);
    SeparatedWords(t.predicateName, JoinedTail(t));
    SeparatedWords(t.subject, t.predicateName + Separated(JoinedTail(t)));
    assert Words(t.subject) + (Words(t.predicateName) + (Words(t.context) + Words(t.objectName))) == TripleWords(t);
  }

  lemma ComponentWords(f: Fold, v: Json)
    requires IsFolding(f)
    ensures AreFoldedWords(f, Words(Component(f, v)))
    ensures Component(f, v) == Join(Words(Component(f, v)))
    ensures Component(f, v) == "" <==> Words(Component(f, v)) == []
  {
    if v.Number? || v.Str? {
      NormalisedIsEssence(f, v.ToText());
      EssenceIsFolded(f, v.ToText());
      WordsOfJoin(Essence(f, v.ToText()));
      EmptyJoin(Essence(f, v.ToText()));
    }
  }

  /** The folded words that name the slot of a payload, if any do: of the
      explicit name, or else of the complete triple. */
  function SlotWords(f: Fold, structured: Json): Option<seq<string>> {
    match ExplicitSlot(structured)
    case Some(slot) =>
      if Essence(f, slot.ToText()) == [] then None else Some(Essence(f, slot.ToText()))
    case None =>
      var t := CanonicalTriple(f, structured.Get("fact"));
      if structured.Get("fact").Obj? && IsComplete(t) then Some(TripleWords(t)) else None
  }

  lemma TripleWordsFolded(f: Fold, fact: Json)
    requires IsFolding(f)
    ensures AreFoldedWords(f, TripleWords(CanonicalTriple(f, fact)))
    ensures IsComplete(CanonicalTriple(f, fact)) ==> |TripleWords(CanonicalTriple(f, fact))| >= 3
  {
    hide Component, Words, IsWord, IsFolded;
    ComponentWords(f, fact.Get("subject"));
    ComponentWords(f, fact.Get("predicate"));
    ComponentWords(f, fact.Get("context"));
    ComponentWords(f, fact.Get("object"));
  }

  /** A structural key is the digest of the slot's folded words, one space apart. */
  lemma KeyIsDigestOfWords(f: Fold, sha: Hash, structured: Json)
    requires IsFolding(f)
    ensures StructuralKey(f, sha, structured) ==
            match SlotWords(f, structured)
            case None => None
            case Some(ws) => Some(PREFIX + sha(Join(ws)))
    ensures SlotWords(f, structured).Some? ==> AreFoldedWords(f, SlotWords(f, structured).value)
  {
    match ExplicitSlot(structured)
    case Some(slot) =>
      NormalisedIsEssence(f, slot.ToText());
      EssenceIsFolded(f, slot.ToText());
      EmptyJoin(Essence(f, slot.ToText()));
    case None =>
      var t := CanonicalTriple(f, structured.Get("fact"));
      TripleWordsFolded(f, structured.Get("fact"));
      if IsComplete(t) {
        PartsRunTogether(t);
        NormalisedIsEssence(f, JoinParts(Parts(t)));
        FoldWordsAgain(f, TripleWords(t));
        EmptyJoin(TripleWords(t));
      }
  }

  /** Two payloads share a structural key exactly when their slots have the same
      folded words in the same order, given that the digest has no collision. */
  lemma KeysShared(f: Fold, sha: Hash, a: Json, b: Json)
    requires IsFolding(f) && IsInjective(sha)
    requires StructuralKey(f, sha, a).Some?
    ensures StructuralKey(f, sha, a) == StructuralKey(f, sha, b) <==> SlotWords(f, a) == SlotWords(f, b)
  {
    KeyIsDigestOfWords(f, sha, a);
    KeyIsDigestOfWords(f, sha, b);
    if StructuralKey(f, sha, a) == StructuralKey(f, sha, b) {
      var x, y := SlotWords(f, a).value, SlotWords(f, b).value;
      assert (PREFIX + sha(Join(x)))[|PREFIX|..] == sha(Join(x));
      assert (PREFIX + sha(Join(y)))[|PREFIX|..] == sha(Join(y));
      WordsOfJoin(x);
      WordsOfJoin(y);
    }
  }

  /** A structural key is never a fallback key. */
  lemma FamiliesApart(f: Fold, sha: Hash, structured: Json, legacy: string)
    requires IsDigest(sha)
    requires StructuralKey(f, sha, structured).Some?
    ensures StructuralKey(f, sha, structured).value != sha(legacy)
    ensures |StructuralKey(f, sha, structured).value| == 69
  {
  }

  // ---- which facts collide -------------------------------------------------

  /** A payload that carries a fact and no explicit slot name. */
  function Payload(fact: Json): Json {
    Obj(map["fact" := fact], "")
  }

  function FactOf(t: Triple): Json {
    Obj(map["subject" := Str(t.subject), "predicate" := Str(t.predicateName),
            "context" := Str(t.context), "object" := Str(t.objectName)], "")
  }

  predicate IsFact(f: Fold, fact: Json) {
    fact.Obj? && IsComplete(CanonicalTriple(f, fact))
  }

  /** The same words cut elsewhere. */
  function Recut(ws: seq<string>, a: nat, b: nat, c: nat): Triple
    requires a <= b <= c <= |ws|
  {
    Triple(Join(ws[..a]), Join(ws[a..b]), Join(ws[b..c]), Join(ws[c..]))
  }

  lemma NormalisedJoin(f: Fold, ws: seq<string>)
    requires IsFolding(f) && AreFoldedWords(f, ws)
    ensures Normalised(f, Join(ws)) == Join(ws) && Words(Join(ws)) == ws
    ensures Join(ws) == "" <==> ws == []
  {
    NormalisedIsEssence(f, Join(ws));
    WordsOfJoin(ws);
    FoldWordsAgain(f, ws);
    EmptyJoin(ws);
  }

  lemma RecutFact(f: Fold, ws: seq<string>, a: nat, b: nat, c: nat)
    requires IsFolding(f) && AreFoldedWords(f, ws)
    requires 1 <= a < b <= c < |ws|
    ensures
      var t := Recut(ws, a, b, c);
      CanonicalTriple(f, FactOf(t)) == t && IsComplete(t) && TripleWords(t) == ws && (t.context == "" <==> b == c)
  {
    hide Join, Words, Normalised, IsWord, IsFolded;
    NormalisedJoin(f, ws[..a]);
    NormalisedJoin(f, ws[a..b]);
    NormalisedJoin(f, ws[b..c]);
    NormalisedJoin(f, ws[c..]);
    assert ws[..a] + ws[a..b] + ws[b..c] + ws[c..] == ws;
  }

  /** With four words or more, another complete fact has the same words. */
  lemma LongFactHasDouble(f: Fold, fact: Json) returns (other: Json)
    requires IsFolding(f) && IsFact(f, fact)
    requires |TripleWords(CanonicalTriple(f, fact))| >= 4
    ensures IsFact(f, other) && CanonicalTriple(f, other) != CanonicalTriple(f, fact)
    ensures TripleWords(CanonicalTriple(f, other)) == TripleWords(CanonicalTriple(f, fact))
  {
    var t := CanonicalTriple(f, fact);
    var ws := TripleWords(t);
    TripleWordsFolded(f, fact);
    hide Component, IsWord, IsFolded, Recut, FactOf;
    if t.context == "" {
      other := FactOf(Recut(ws, 1, 2, |ws| - 1));
      RecutFact(f, ws, 1, 2, |ws| - 1);
      FactIsObject(Recut(ws, 1, 2, |ws| - 1));
    } else {
      ComponentWords(f, fact.Get("subject"));
      ComponentWords(f, fact.Get("predicate"));
      ComponentWords(f, fact.Get("context"));
      ComponentWords(f, fact.Get("object"));
      var a := |Words(t.subject)|;
      var b := a + |Words(t.predicateName)|;
      other := FactOf(Recut(ws, a, b, b));
      RecutFact(f, ws, a, b, b);
      FactIsObject(Recut(ws, a, b, b));
    }
  }

  lemma FactIsObject(t: Triple)
    ensures FactOf(t).Obj?
  {
  }

  lemma ThreeWords(x: Triple, ws: seq<string>)
    requires IsComplete(x) && |ws| == 3 && TripleWords(x) == ws
    requires Words(x.subject) != [] && Words(x.predicateName) != [] && Words(x.objectName) != []
    ensures Words(x.subject) == [ws[0]] && Words(x.predicateName) == [ws[1]]
    ensures Words(x.context) == [] && Words(x.objectName) == [ws[2]]
  {
    hide Words;
    var s, p, o := Words(x.subject), Words(x.predicateName), Words(x.objectName);
    assert |s| == 1 && |p| == 1 && |o| == 1;
    assert ws == s + p + [] + o;
  }

  /** With three words there is only one complete fact. */
  lemma ShortFactIsAlone(f: Fold, fact: Json, other: Json)
    requires IsFolding(f) && IsFact(f, fact) && IsFact(f, other)
    requires |TripleWords(CanonicalTriple(f, fact))| == 3
    requires TripleWords(CanonicalTriple(f, other)) == TripleWords(CanonicalTriple(f, fact))
    ensures CanonicalTriple(f, other) == CanonicalTriple(f, fact)
  {
    var t, u := CanonicalTriple(f, fact), CanonicalTriple(f, other);
    var ws := TripleWords(t);
    FactComponents(f, fact);
    FactComponents(f, other);
    hide Words, Component, TripleWords;
    ThreeWords(t, ws);
    ThreeWords(u, ws);
  }

  lemma FactComponents(f: Fold, fact: Json)
    requires IsFolding(f) && IsFact(f, fact)
    ensures
      var t := CanonicalTriple(f, fact);
      && Words(t.subject) != [] && Words(t.predicateName) != [] && Words(t.objectName) != []
      && t.subject == Join(Words(t.subject)) && t.predicateName == Join(Words(t.predicateName))
      && t.context == Join(Words(t.context)) && t.objectName == Join(Words(t.objectName))
  {
    hide Words, Component, IsWord, IsFolded;
    ComponentWords(f, fact.Get("subject"));
    ComponentWords(f, fact.Get("predicate"));
    ComponentWords(f, fact.Get("context"));
    ComponentWords(f, fact.Get("object"));
  }

  /** The payload names no explicit slot and states a complete fact. */
  predicate StatesFact(f: Fold, payload: Json) {
    ExplicitSlot(payload).None? && IsFact(f, payload.Get("fact"))
  }

  /** The canonical fact a payload states. */
  function Stated(f: Fold, payload: Json): Triple {
    CanonicalTriple(f, payload.Get("fact"))
  }

  lemma StatedWords(f: Fold, payload: Json)
    requires StatesFact(f, payload)
    ensures SlotWords(f, payload) == Some(TripleWords(Stated(f, payload)))
  {
    hide CanonicalTriple, TripleWords, Essence, ExplicitSlot;
  }

  lemma PayloadStates(f: Fold, fact: Json)
    requires IsFact(f, fact)
    ensures StatesFact(f, Payload(fact)) && Stated(f, Payload(fact)) == CanonicalTriple(f, fact)
  {
    hide CanonicalTriple;
    assert Payload(fact).Get("fact") == fact;
    assert Payload(fact).Get("fact_key").Null? && Payload(fact).Get("truth_key").Null?;
  }

  /** No payload that names no explicit slot and states a different fact shares
      this payload's key. */
  ghost predicate IsKeptApart(f: Fold, sha: Hash, payload: Json) {
    forall other: Json :: StatesFact(f, other) && Stated(f, other) != Stated(f, payload) ==>
      StructuralKey(f, sha, other) != StructuralKey(f, sha, payload)
  }

  lemma StatedKeysShared(f: Fold, sha: Hash, a: Json, b: Json)
    requires IsFolding(f) && IsInjective(sha) && StatesFact(f, a) && StatesFact(f, b)
    ensures StructuralKey(f, sha, a) == StructuralKey(f, sha, b)
            <==> TripleWords(Stated(f, a)) == TripleWords(Stated(f, b))
  {
    hide StructuralKey, SlotWords, StatesFact, Stated, TripleWords;
    StatedWords(f, a);
    StatedWords(f, b);
    KeyIsDigestOfWords(f, sha, a);
    KeysShared(f, sha, a, b);
  }

  /** Among payloads that name no explicit slot, a fact shares its key with no
      different one exactly when its components have three words in all; from four
      words on some different fact, the same words cut elsewhere, has its key. */
  lemma KeptApartOnlyWhenShort(f: Fold, sha: Hash, payload: Json)
    requires IsFolding(f) && IsInjective(sha) && StatesFact(f, payload)
    ensures IsKeptApart(f, sha, payload) <==> |TripleWords(Stated(f, payload))| == 3
  {
    hide CanonicalTriple, StructuralKey, Payload, TripleWords, ExplicitSlot;
    TripleWordsFolded(f, payload.Get("fact"));
    if |TripleWords(Stated(f, payload))| == 3 {
      forall other: Json | StatesFact(f, other) && Stated(f, other) != Stated(f, payload)
        ensures StructuralKey(f, sha, other) != StructuralKey(f, sha, payload)
      {
        StatedKeysShared(f, sha, payload, other);
        if TripleWords(Stated(f, other)) == TripleWords(Stated(f, payload)) {
          ShortFactIsAlone(f, payload.Get("fact"), other.Get("fact"));
        }
      }
    } else {
      var other := LongFactHasDouble(f, payload.Get("fact"));
      PayloadStates(f, other);
      StatedKeysShared(f, sha, payload, Payload(other));
    }
  }

  /** A payload that states a fact under an explicit slot name. */
  function NamedPayload(name: string, fact: Json): Json {
    Obj(map["fact_key" := Str(name), "fact" := fact], "")
  }

  lemma NamedSlot(f: Fold, name: string, fact: Json)
    requires name != ""
    ensures ExplicitSlot(NamedPayload(name, fact)) == Some(Str(name))
  {
    assert NamedPayload(name, fact).Get("fact_key") == Str(name);
  }

  /** Explicit names escape that: whatever slot a payload names, and whatever other
      fact is stated, the payload that states it under the first one's words as its
      explicit name has the same key, three words or not. */
  lemma NameTakesKey(f: Fold, sha: Hash, payload: Json, fact: Json)
    requires IsFolding(f) && SlotWords(f, payload).Some?
    ensures
      var named := NamedPayload(Join(SlotWords(f, payload).value), fact);
      StructuralKey(f, sha, named) == StructuralKey(f, sha, payload) && named.Get("fact") == fact
  {
    var ws := SlotWords(f, payload).value;
    SlotIsNamed(f, payload);
    KeyIsDigestOfWords(f, sha, payload);
    hide SlotWords, StructuralKey, ExplicitSlot, Normalised, Words, IsWord, IsFolded;
    NormalisedJoin(f, ws);
    NamedSlot(f, Join(ws), fact);
    NamedKey(f, sha, Join(ws), fact);
  }

  lemma SlotIsNamed(f: Fold, payload: Json)
    requires IsFolding(f) && SlotWords(f, payload).Some?
    ensures SlotWords(f, payload).value != []
  {
    hide CanonicalTriple, TripleWords, Essence, ExplicitSlot;
    TripleWordsFolded(f, payload.Get("fact"));
  }

  lemma NamedKey(f: Fold, sha: Hash, name: string, fact: Json)
    requires name != "" && Normalised(f, name) == name
    ensures StructuralKey(f, sha, NamedPayload(name, fact)) == Some(PREFIX + sha(name))
  {
    hide Normalised, ExplicitSlot;
    NamedSlot(f, name, fact);
  }

  /** An explicit name outranks the triple: a blank one leaves even a complete
      fact without a structural key. */
  lemma BlankNameHidesFact(f: Fold, sha: Hash, name: string, fact: Json)
    requires IsFolding(f) && name != "" && Words(name) == []
    ensures StructuralKey(f, sha, NamedPayload(name, fact)) == None
  {
    hide StructuralKey, ExplicitSlot, Words;
    NamedSlot(f, name, fact);
    KeyIsDigestOfWords(f, sha, NamedPayload(name, fact));
  }
}
