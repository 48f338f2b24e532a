/** The whitespace handling of Python strings: `\s`, `strip`, and the
    `re.sub(r"\s+", " ", ...)` that every normaliser of the repository uses. */
module Text {

  /** What `\s` matches and `strip()` removes, the information separators
      U+001C to U+001F included. */
  predicate IsSpace(c: char) {
    var n := c as int;
    || 9 <= n <= 13 || 28 <= n <= 32 || n == 0x85 || n == 0xA0 || n == 0x1680
    || 0x2000 <= n <= 0x200A || n == 0x2028 || n == 0x2029 || n == 0x202F || n == 0x205F || n == 0x3000
  }

  /** `lstrip()`. */
  function SkipSpace(s: string): (t: string)
    ensures |t| <= |s| && (s != [] && IsSpace(s[0]) ==> |t| < |s|)
    ensures t != [] ==> !IsSpace(t[0])
    ensures s != [] && !IsSpace(s[0]) ==> t == s
  {
    if s != [] && IsSpace(s[0]) then SkipSpace(s[1..]) else s
  }

  /** `rstrip()`. */
  function DropSpace(s: string): (t: string)
    ensures t <= s
    ensures t != [] ==> !IsSpace(t[|t| - 1])
    ensures s != [] && !IsSpace(s[|s| - 1]) ==> t == s
  {
    if s != [] && IsSpace(s[|s| - 1]) then DropSpace(s[..|s| - 1]) else s
  }

  /** `strip()`. */
  function Strip(s: string): (t: string)
    ensures |t| <= |s|
  {
    DropSpace(SkipSpace(s))
  }

  /** `re.sub(r"\s+", " ", s)`. */
  function CollapseRuns(s: string): (t: string)
    ensures |t| <= |s|
    decreases |s|
  {
    if s == [] then []
    else if IsSpace(s[0]) then " " + CollapseRuns(SkipSpace(s))
    else [s[0]] + CollapseRuns(s[1..])
  }

  /** `re.sub(r"\s+", " ", s.strip())`. */
  function Collapse(s: string): (t: string)
    ensures |t| <= |s|
  {
    CollapseRuns(Strip(s))
  }

  // ---- words ---------------------------------------------------------------

  function WordEnd(s: string): (n: nat)
    ensures n <= |s|
    ensures forall i :: 0 <= i < n ==> !IsSpace(s[i])
    ensures n < |s| ==> IsSpace(s[n])
  {
    if s == [] || IsSpace(s[0]) then 0 else 1 + WordEnd(s[1..])
  }

  /** `s.split()`. */
  function Words(s: string): seq<string>
    decreases |s|
  {
    var t := SkipSpace(s);
    if t == [] then [] else [t[..WordEnd(t)]] + Words(t[WordEnd(t)..])
  }

  /** `" ".join(ws)`. */
  function Join(ws: seq<string>): string {
    if ws == [] then "" else if |ws| == 1 then ws[0] else ws[0] + " " + Join(ws[1..])
  }

  predicate IsWord(w: string) {
    w != [] && forall i :: 0 <= i < |w| ==> !IsSpace(w[i])
  }

  predicate AreWords(ws: seq<string>) {
    forall i :: 0 <= i < |ws| ==> IsWord(ws[i])
  }

  lemma {:induction false} WordsAreWords(s: string)
    ensures AreWords(Words(s))
    decreases |s|
  {
    var t := SkipSpace(s);
    if t != [] {
      WordsAreWords(t[WordEnd(t)..]);
    }
  }

  lemma {:induction false} DropSpaceAppend(a: string, b: string)
    requires DropSpace(b) != []
    ensures DropSpace(a + b) == a + DropSpace(b)
    decreases |b|
  {
    if b != [] && IsSpace(b[|b| - 1]) {
      assert (a + b)[..|a + b| - 1] == a + b[..|b| - 1];
      DropSpaceAppend(a, b[..|b| - 1]);
    } else {
      assert (a + b)[|a + b| - 1] == b[|b| - 1];
    }
  }

  lemma {:induction false} CollapseWord(w: string, rest: string)
    requires forall i :: 0 <= i < |w| ==> !IsSpace(w[i])
    ensures CollapseRuns(w + rest) == w + CollapseRuns(rest)
  {
    if w == [] {
      assert w + rest == rest;
    } else {
      assert (w + rest)[1..] == w[1..] + rest;
      CollapseWord(w[1..], rest);
    }
  }

  lemma CollapseLastWord(w: string, rest: string)
    requires IsWord(w) && SkipSpace(rest) == []
    ensures DropSpace(CollapseRuns(w + rest)) == w
  {
    CollapseWord(w, rest);
    if rest != [] {
      assert CollapseRuns(rest) == " ";
      assert (w + " ")[..|w|] == w;
      assert IsSpace((w + " ")[|w|]);
    }
  }

  lemma CollapseNextWord(w: string, rest: string)
    requires IsWord(w) && rest != [] && IsSpace(rest[0])
    requires DropSpace(CollapseRuns(SkipSpace(rest))) != []
    ensures DropSpace(CollapseRuns(w + rest)) == w + " " + DropSpace(CollapseRuns(SkipSpace(rest)))
  {
    CollapseWord(w, rest);
    var t := CollapseRuns(SkipSpace(rest));
    assert w + (" " + t) == (w + " ") + t;
    DropSpaceAppend(w + " ", t);
  }

  /** Collapsing runs and then stripping leaves the words, joined by single spaces. */
  lemma {:induction false} CollapsedIsJoined(s: string)
    requires s != [] && !IsSpace(s[0])
    ensures Words(s) != [] && Join(Words(s)) != []
    ensures DropSpace(CollapseRuns(s)) == Join(Words(s))
    decreases |s|
  {
    hide IsSpace, CollapseRuns, DropSpace;
    var n := WordEnd(s);
    var w, rest := s[..n], s[n..];
    assert s == w + rest;
    assert Words(s) == [w] + Words(rest);
    var t := SkipSpace(rest);
    if t == [] {
      CollapseLastWord(w, rest);
    } else {
      assert Words(rest) == Words(t);
      CollapsedIsJoined(t);
      CollapseNextWord(w, rest);
      assert Words(s)[1..] == Words(t);
    }
  }

  /** `re.sub(r"\s+", " ", s).strip()`, the order used by the slot keys and
      the claim keys, is the words joined by single spaces. */
  lemma CollapseThenStrip(s: string)
    ensures Strip(CollapseRuns(s)) == Join(Words(s))
  {
    var t := SkipSpace(s);
    assert Words(s) == Words(t) by {
      assert SkipSpace(t) == t;
    }
    assert SkipSpace(CollapseRuns(s)) == CollapseRuns(t) by {
      if s != [] && IsSpace(s[0]) {
        assert CollapseRuns(s)[1..] == CollapseRuns(t);
      }
    }
    if t != [] {
      CollapsedIsJoined(t);
    }
  }

  // ---- rebuilding words ----------------------------------------------------

  lemma {:induction false} WordsOfWord(w: string, rest: string)
    requires IsWord(w)
    requires rest != [] ==> IsSpace(rest[0])
    ensures Words(w + rest) == [w] + Words(rest)
  {
    var s := w + rest;
    assert forall i :: 0 <= i < |w| ==> s[i] == w[i];
    assert rest != [] ==> s[|w|] == rest[0];
    assert WordEnd(s) == |w|;
    assert s[..|w|] == w && s[|w|..] == rest;
  }

  /** Splitting a join of words gives the words back. */
  lemma {:induction false} WordsOfJoin(ws: seq<string>)
    requires AreWords(ws)
    ensures Words(Join(ws)) == ws
  {
    if |ws| == 1 {
      WordsOfWord(ws[0], "");
      assert ws[0] + "" == ws[0];
    } else if |ws| > 1 {
      var rest := " " + Join(ws[1..]);
      WordsOfJoin(ws[1..]);
      WordsOfWord(ws[0], rest);
      assert ws[0] + rest == Join(ws);
      JoinStartsWithWord(ws[1..]);
      assert rest[1..] == Join(ws[1..]);
      assert SkipSpace(rest) == Join(ws[1..]);
    }
  }

  lemma JoinStartsWithWord(ws: seq<string>)
    requires AreWords(ws) && ws != []
    ensures Join(ws) != [] && !IsSpace(Join(ws)[0])
    ensures SkipSpace(Join(ws)) == Join(ws)
  {
    assert IsWord(ws[0]);
    assert Join(ws)[0] == ws[0][0];
  }

  // ---- normalising keeps the words -----------------------------------------

  lemma {:induction false} SkipSpaceAppend(s: string, c: char)
    requires IsSpace(c)
    ensures SkipSpace(s + [c]) == if SkipSpace(s) == [] then [] else SkipSpace(s) + [c]
  {
    if s == [] {
      assert s + [c] == [c];
    } else if IsSpace(s[0]) {
      assert (s + [c])[1..] == s[1..] + [c];
      SkipSpaceAppend(s[1..], c);
    }
  }

  lemma {:induction false} WordEndAppend(s: string, c: char)
    requires IsSpace(c)
    ensures WordEnd(s + [c]) == WordEnd(s)
  {
    if s != [] && !IsSpace(s[0]) {
      assert (s + [c])[1..] == s[1..] + [c];
      WordEndAppend(s[1..], c);
    }
  }

  lemma {:induction false} WordsAppendSpace(s: string, c: char)
    requires IsSpace(c)
    ensures Words(s + [c]) == Words(s)
    decreases |s|
  {
    SkipSpaceAppend(s, c);
    var t := SkipSpace(s);
    if t != [] {
      WordEndAppend(t, c);
      var n := WordEnd(t);
      assert (t + [c])[..n] == t[..n] && (t + [c])[n..] == t[n..] + [c];
      WordsAppendSpace(t[n..], c);
    }
  }

  lemma {:induction false} WordsOfDropSpace(s: string)
    ensures Words(DropSpace(s)) == Words(s)
  {
    if s != [] && IsSpace(s[|s| - 1]) {
      WordsOfDropSpace(s[..|s| - 1]);
      WordsAppendSpace(s[..|s| - 1], s[|s| - 1]);
      assert s == s[..|s| - 1] + [s[|s| - 1]];
    }
  }

  lemma WordsOfStrip(s: string)
    ensures Words(Strip(s)) == Words(s)
  {
    WordsOfDropSpace(SkipSpace(s));
    assert SkipSpace(SkipSpace(s)) == SkipSpace(s);
  }

  lemma WordsOfCollapse(s: string)
    ensures Words(CollapseRuns(s)) == Words(s) && Words(Collapse(s)) == Words(s)
  {
    WordsOfCollapseRuns(s);
    WordsOfCollapseRuns(Strip(s));
    WordsOfStrip(s);
  }

  lemma WordsOfCollapseRuns(s: string)
    ensures Words(CollapseRuns(s)) == Words(s)
  {
    CollapseThenStrip(s);
    WordsOfStrip(CollapseRuns(s));
    WordsAreWords(s);
    WordsOfJoin(Words(s));
  }

  // ---- texts that are already tidy -----------------------------------------

  /** Every whitespace character is a single ' ' before another character. */
  predicate SingleSpaced(s: string) {
    forall i :: 0 <= i < |s| && IsSpace(s[i]) ==> s[i] == ' ' && i + 1 < |s| && !IsSpace(s[i + 1])
  }

  lemma {:induction false} CollapseTidy(s: string)
    requires SingleSpaced(s)
    ensures CollapseRuns(s) == s
  {
    if s != [] {
      assert SingleSpaced(s[1..]) by {
        assert forall i :: 0 <= i < |s[1..]| ==> s[1..][i] == s[i + 1];
      }
      CollapseTidy(s[1..]);
      if IsSpace(s[0]) {
        assert SkipSpace(s) == SkipSpace(s[1..]) == s[1..];
      }
    }
  }

  lemma TidyIsCollapsed(s: string)
    requires SingleSpaced(s)
    requires s != [] ==> !IsSpace(s[0])
    ensures Strip(s) == s && Collapse(s) == s
  {
    CollapseTidy(s);
    if s != [] {
      assert !IsSpace(s[|s| - 1]);
    }
  }
}
