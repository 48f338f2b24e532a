/** Matching predicted claims against references, and the scores made of it. */
module ClaimMatching {
  import opened SlotKeys

  type Key = (string, string, string)

  /** `str(value or "")`, tidied and folded. */
  function NormalizedValue(f: Fold, v: Json): string {
    Normalised(f, if v.Truthy() then v.ToText() else "")
  }

  /** `claim_key`. */
  function ClaimKey(f: Fold, claim: Json): Key {
    (NormalizedValue(f, claim.Get("category")), NormalizedValue(f, claim.Get("status")),
     NormalizedValue(f, claim.Get("object")))
  }

  function Keys(f: Fold, claims: seq<Json>): (r: seq<Key>)
    ensures |r| == |claims|
    ensures forall i :: 0 <= i < |claims| ==> r[i] == ClaimKey(f, claims[i])
  {
    seq(|claims|, i requires 0 <= i < |claims| => ClaimKey(f, claims[i]))
  }

  // ---- the removal loop ----------------------------------------------------

  /** `list.remove`: the first occurrence goes. */
  function Remove(s: seq<Key>, k: Key): (r: seq<Key>)
    requires k in s
    ensures multiset(r) == multiset(s) - multiset{k}
  {
    assert s == [s[0]] + s[1..];
    if s[0] == k then s[1..] else [s[0]] + Remove(s[1..], k)
  }

  /** Taking one key on both sides. */
  lemma SharedKey(a: multiset<Key>, b: multiset<Key>, k: Key)
    requires k in a
    ensures (a - multiset{k}) * b + multiset{k} == a * (b + multiset{k})
  {
  }

  lemma UnsharedKey(a: multiset<Key>, b: multiset<Key>, k: Key)
    requires k !in a
    ensures a * (b + multiset{k}) == a * b
  {
  }

  lemma MatchStep(remaining: seq<Key>, taken: multiset<Key>, wanted: seq<Key>)
    requires wanted != []
    ensures
      taken + multiset(remaining) * multiset(wanted) ==
      if wanted[0] in remaining
      then taken + multiset{wanted[0]} + multiset(Remove(remaining, wanted[0])) * multiset(wanted[1..])
      else taken + multiset(remaining) * multiset(wanted[1..])
  {
    var key, rest := wanted[0], wanted[1..];
    assert wanted == [key] + rest;
    assert multiset(wanted) == multiset(rest) + multiset{key};
    if key in remaining {
      SharedKey(multiset(remaining), multiset(rest), key);
    } else {
      UnsharedKey(multiset(remaining), multiset(rest), key);
    }
  }

  /** `_match_count` is the size of the multiset intersection of the two lists of
      keys: it depends on neither order, and is symmetric. */
  method MatchCount(f: Fold, predictions: seq<Json>, references: seq<Json>) returns (matched: nat)
    ensures matched == |multiset(Keys(f, predictions)) * multiset(Keys(f, references))|
  {
    var remaining := Keys(f, predictions);
    matched := 0;
    ghost var wanted := Keys(f, references);
    ghost var goal := multiset(remaining) * multiset(wanted);
    ghost var taken: multiset<Key> := multiset{};
    for i := 0 to |references|
      invariant |taken| == matched
      invariant taken + multiset(remaining) * multiset(wanted[i..]) == goal
    {
      var key := ClaimKey(f, references[i]);
      MatchStep(remaining, taken, wanted[i..]);
      assert wanted[i..][0] == key && wanted[i..][1..] == wanted[i + 1..];
      if key in remaining {
        remaining := Remove(remaining, key);
        matched := matched + 1;
        taken := taken + multiset{key};
      }
    }
  }

  // ---- the scores ----------------------------------------------------------

  /** The scores made of the match, before rounding. */
  datatype Scores = Scores(matched: nat, exactSet: bool, precision: real, recall: real, f1: real)

  function ScoresOf(matched: nat, predictions: nat, references: nat): Scores {
    Scores(
      matched,
      matched == references == predictions,
      if predictions > 0 then matched as real / predictions as real else 0.0,
      if references > 0 then matched as real / references as real else 0.0,
      if predictions > 0 || references > 0 then 2.0 * matched as real / (predictions + references) as real else 0.0)
  }

  /** The matching scores of `evaluate`. */
  method Evaluate(f: Fold, predictions: seq<Json>, references: seq<Json>) returns (scores: Scores)
    ensures scores
            == ScoresOf(|multiset(Keys(f, predictions)) * multiset(Keys(f, references))|, |predictions|, |references|)
  {
    var matched := MatchCount(f, predictions, references);
    scores := ScoresOf(matched, |predictions|, |references|);
  }

  lemma SharedSize(a: multiset<Key>, b: multiset<Key>)
    ensures |a * b| <= |a| && |a * b| <= |b|
    ensures |a * b| == |a| <==> a <= b
    ensures |a * b| == |a| == |b| <==> a == b
  {
    assert a == a * b + (a - b);
    assert b == a * b + (b - a);
    assert |a - b| == 0 ==> a - b == multiset{};
    assert a <= b <==> a - b == multiset{};
    assert |b - a| == 0 ==> b - a == multiset{};
    assert b <= a <==> b - a == multiset{};
  }

  lemma WholeRatio(m: nat, n: nat)
    requires n > 0
    ensures m as real / n as real == 1.0 <==> m == n
    ensures m <= n ==> 0.0 <= m as real / n as real <= 1.0
  {
    var q := m as real / n as real;
    assert q * n as real == m as real;
    if m <= n {
      assert q > 1.0 ==> q * n as real > n as real;
    }
  }

  /** `exact_set` holds exactly when both sides have the same keys as often;
      precision is one exactly when every prediction is called for, recall exactly
      when every reference is met, and the F score exactly when the set is exact. */
  lemma ScoresMean(predicted: seq<Key>, wanted: seq<Key>)
    ensures
      var s := ScoresOf(|multiset(predicted) * multiset(wanted)|, |predicted|, |wanted|);
      && (s.exactSet <==> multiset(predicted) == multiset(wanted))
      && 0.0 <= s.precision <= 1.0 && 0.0 <= s.recall <= 1.0 && 0.0 <= s.f1 <= 1.0
      && (s.precision == 1.0 <==> predicted != [] && multiset(predicted) <= multiset(wanted))
      && (s.recall == 1.0 <==> wanted != [] && multiset(wanted) <= multiset(predicted))
      && (s.f1 == 1.0 <==> s.exactSet && predicted != [])
  {
    var a, b := multiset(predicted), multiset(wanted);
    var m := |a * b|;
    SharedSize(a, b);
    SharedSize(b, a);
    assert a * b == b * a;
    if predicted != [] {
      WholeRatio(m, |predicted|);
    }
    if wanted != [] {
      WholeRatio(m, |wanted|);
    }
    if predicted != [] || wanted != [] {
      WholeRatio(2 * m, |predicted| + |wanted|);
      assert (2 * m) as real == 2.0 * m as real;
    }
  }

  /** The F score is the harmonic mean of precision and recall. */
  lemma F1IsHarmonic(matched: nat, predictions: nat, references: nat)
    requires 0 < matched
    requires 0 < predictions && 0 < references
    ensures var s := ScoresOf(matched, predictions, references);
      s.precision + s.recall > 0.0 && s.f1 * (s.precision + s.recall) == 2.0 * s.precision * s.recall
  {
    var m, p, r := matched as real, predictions as real, references as real;
    var x, y, z := m / p, m / r, 2.0 * m / (p + r);
    assert x * p == m && y * r == m && z * (p + r) == 2.0 * m;
    HarmonicStep(m, p, r, x, y, z);
    assert (predictions + references) as real == p + r;
  }

  lemma HarmonicStep(m: real, p: real, r: real, x: real, y: real, z: real)
    requires m > 0.0 && p > 0.0 && r > 0.0
    requires x * p == m && y * r == m && z * (p + r) == 2.0 * m
    ensures x > 0.0 && y > 0.0 && z * (x + y) == 2.0 * x * y
  {
    assert x > 0.0 && y > 0.0;
    assert x * y * (p + r) == (x * p) * y + x * (y * r) == m * (x + y);
    assert z * (x + y) * (p + r) == 2.0 * m * (x + y) == 2.0 * x * y * (p + r);
  }
}
