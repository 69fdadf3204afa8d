/** When a keyword rule matches a text, on the plain and on the indexed path
    (internal/scanner/evaluate.go). */
module Keywords {
  import opened Aho

  datatype KeywordRule = KeywordRule(id: string, keywords: seq<string>, caseSensitive: bool, wholeWord: bool, requireAll: bool)

  predicate IsWordChar(c: char) {
    '0' <= c <= '9' || 'a' <= c <= 'z' || 'A' <= c <= 'Z' || c == '_' || c == '-'
  }

  function LowerChar(c: char): char {
    if 'A' <= c <= 'Z' then c - 'A' + 'a' else c
  }

  function ToLower(s: string): (r: string)
    ensures |r| == |s|
  {
    if s == [] then [] else [LowerChar(s[0])] + ToLower(s[1..])
  }

  /** The occurrence at i passes the whole-word test, when the rule asks for one. */
  predicate WordOk(ww: bool, text: string, i: int, len: nat)
    requires 0 <= i && i + len <= |text|
  {
    !ww || ((i == 0 || !IsWordChar(text[i - 1])) && (i + len >= |text| || !IsWordChar(text[i + len])))
  }

  /** A counted occurrence. */
  predicate Counts(ww: bool, text: string, kw: string, i: int) {
    OccursAt(text, kw, i) && WordOk(ww, text, i, |kw|)
  }

  /** The plain path looks at the first occurrence only. */
  predicate FirstCounts(ww: bool, text: string, kw: string) {
    var i := FirstFrom(text, kw, 0);
    i >= 0 && WordOk(ww, text, i, |kw|)
  }

  function Haystack(r: KeywordRule, line: string): string {
    if r.caseSensitive then line else ToLower(line)
  }

  ghost predicate SomeFirst(r: KeywordRule, hay: string, n: nat) {
    exists k :: 0 <= k < n <= |r.keywords| && FirstCounts(r.wholeWord, hay, r.keywords[k])
  }

  ghost predicate AllFirst(r: KeywordRule, hay: string, n: nat) {
    n <= |r.keywords| && forall k :: 0 <= k < n ==> FirstCounts(r.wholeWord, hay, r.keywords[k])
  }

  ghost predicate PlainMatch(r: KeywordRule, hay: string) {
    if r.requireAll then AllFirst(r, hay, |r.keywords|) else SomeFirst(r, hay, |r.keywords|)
  }

  /** An occurrence of any pattern in the automaton that passes the rule's whole-word option. */
  ghost predicate GoodHit(patterns: seq<string>, ww: bool, lower: string, m: Match) {
    IsHit(patterns, lower, m) && WordOk(ww, lower, m.index, |patterns[m.pattern]|)
  }

  ghost predicate HitOf(patterns: seq<string>, ww: bool, lower: string, kw: string) {
    exists m :: GoodHit(patterns, ww, lower, m) && patterns[m.pattern] == kw
  }

  /** The indexed path: with any-logic a hit of any pattern is enough. */
  ghost predicate IndexedMatch(patterns: seq<string>, r: KeywordRule, lower: string) {
    if r.requireAll then forall j :: 0 <= j < |r.keywords| ==> HitOf(patterns, r.wholeWord, lower, r.keywords[j])
    else exists m :: GoodHit(patterns, r.wholeWord, lower, m)
  }

  ghost predicate UsesIndex(patterns: seq<string>, r: KeywordRule, lower: string) {
    !r.caseSensitive && exists m :: IsHit(patterns, lower, m)
  }

  /** When the rule's keywords are found in a line. No automaton is the empty pattern list. */
  ghost predicate RuleMatches(patterns: seq<string>, r: KeywordRule, line: string) {
    && r.keywords != []
    && if UsesIndex(patterns, r, ToLower(line)) then IndexedMatch(patterns, r, ToLower(line))
       else PlainMatch(r, Haystack(r, line))
  }

  // ---------- lower case ----------

  lemma {:induction false} LowerAt(s: string, i: nat)
    requires i < |s|
    ensures ToLower(s)[i] == LowerChar(s[i])
  {
    if i > 0 {
      LowerAt(s[1..], i - 1);
    }
  }

  predicate IsCapital(c: char) {
    'A' <= c <= 'Z'
  }

  /** Lower-casing leaves no capital and changes nothing else. */
  lemma LowerHasNoCapitals(s: string)
    ensures forall i :: 0 <= i < |s| ==> !IsCapital(ToLower(s)[i])
    ensures forall i :: 0 <= i < |s| && !IsCapital(s[i]) ==> ToLower(s)[i] == s[i]
    ensures (forall i :: 0 <= i < |s| ==> !IsCapital(s[i])) <==> ToLower(s) == s
  {
    forall i | 0 <= i < |s| ensures !IsCapital(ToLower(s)[i]) && (!IsCapital(s[i]) ==> ToLower(s)[i] == s[i]) {
      LowerAt(s, i);
    }
  }

  /** The same letter, small and capital. */
  predicate CasePair(c: char, d: char) {
    (IsCapital(c) && d as int == c as int + 32) || (IsCapital(d) && c as int == d as int + 32)
  }

  /** Equal up to the case of ASCII letters. */
  ghost predicate SameUpToCase(s: string, t: string) {
    |s| == |t| && forall i :: 0 <= i < |s| ==> s[i] == t[i] || CasePair(s[i], t[i])
  }

  /** Lower-casing identifies exactly the strings that are equal up to case. */
  lemma SameLowerIff(s: string, t: string)
    ensures ToLower(s) == ToLower(t) <==> SameUpToCase(s, t)
  {
    forall i | 0 <= i < |s| && i < |t|
      ensures ToLower(s)[i] == ToLower(t)[i] <==> s[i] == t[i] || CasePair(s[i], t[i])
    {
      LowerAt(s, i);
      LowerAt(t, i);
    }
    if SameUpToCase(s, t) {
      assert forall i :: 0 <= i < |s| ==> ToLower(s)[i] == ToLower(t)[i];
    }
  }

  /** Word characters come in both cases; with them go the digits, underscore and hyphen, and nothing next to them. */
  lemma WordCharacters(c: char, d: char)
    ensures CasePair(c, d) ==> IsWordChar(c) && IsWordChar(d)
    ensures IsWordChar(c) <==> (exists e :: CasePair(c, e)) || c in "0123456789" || c == '_' || c == '-'
  {
    if 'a' <= c <= 'z' {
      assert CasePair(c, (c as int - 32) as char);
    }
    if 'A' <= c <= 'Z' {
      assert CasePair(c, (c as int + 32) as char);
    }
    var digits := "0123456789";
    if '0' <= c <= '9' {
      assert c == digits[c as int - '0' as int];
    }
  }

  /** A case-insensitive rule does not tell such lines apart. */
  lemma CaseIgnored(patterns: seq<string>, r: KeywordRule, s: string, t: string)
    requires !r.caseSensitive && SameUpToCase(s, t)
    ensures RuleMatches(patterns, r, s) <==> RuleMatches(patterns, r, t)
  {
    SameLowerIff(s, t);
  }

  /** A case-sensitive any-logic rule without whole words finds its keywords exactly as they are written. */
  lemma CaseKept(patterns: seq<string>, r: KeywordRule, line: string)
    requires r.caseSensitive && !r.requireAll && !r.wholeWord
    ensures RuleMatches(patterns, r, line) <==> exists k, i :: 0 <= k < |r.keywords| && OccursAt(line, r.keywords[k], i)
  {
    if k, i :| 0 <= k < |r.keywords| && OccursAt(line, r.keywords[k], i) {
      assert FirstCounts(false, line, r.keywords[k]);
    }
    if RuleMatches(patterns, r, line) {
      var k :| 0 <= k < |r.keywords| && FirstCounts(false, line, r.keywords[k]);
      assert OccursAt(line, r.keywords[k], FirstFrom(line, r.keywords[k], 0));
    }
  }

  lemma LowerSliceAt(s: string, t: string, a: nat, i: nat)
    requires i < |t| && a + |t| <= |s| && t[i] == s[a + i]
    ensures ToLower(t)[i] == ToLower(s)[a + i]
  {
    LowerAt(t, i);
    LowerAt(s, a + i);
  }

  lemma {:induction false} LowerSlice(s: string, a: nat, b: nat)
    requires a <= b <= |s|
    ensures ToLower(s[a..b]) == ToLower(s)[a..b]
  {
    var t, u := s[a..b], ToLower(s);
    forall i | 0 <= i < |t| ensures ToLower(t)[i] == u[a + i] {
      LowerSliceAt(s, t, a, i);
    }
  }

  // ---------- plain and indexed path compared ----------

  ghost predicate Present(ww: bool, text: string, kw: string) {
    exists i :: Counts(ww, text, kw, i)
  }

  ghost predicate OwnOccurs(r: KeywordRule, text: string) {
    exists k :: 0 <= k < |r.keywords| && Present(r.wholeWord, text, r.keywords[k])
  }

  /** With its keywords in the automaton, a rule the plain path reports is reported by evalKeywords too. */
  lemma IndexedCoversPlain(patterns: seq<string>, r: KeywordRule, line: string)
    requires !r.caseSensitive && r.keywords != [] && forall k :: 0 <= k < |r.keywords| ==> r.keywords[k] in patterns
    requires PlainMatch(r, ToLower(line))
    ensures RuleMatches(patterns, r, line)
  {
    var lower := ToLower(line);
    forall k | 0 <= k < |r.keywords| && FirstCounts(r.wholeWord, lower, r.keywords[k])
      ensures HitOf(patterns, r.wholeWord, lower, r.keywords[k])
    {
      var p :| 0 <= p < |patterns| && patterns[p] == r.keywords[k];
      assert GoodHit(patterns, r.wholeWord, lower, Match(p, FirstFrom(lower, r.keywords[k], 0)));
    }
  }

  /** All-logic on the index is exact: every own keyword has a counted occurrence. */
  lemma IndexedAllIsExact(patterns: seq<string>, r: KeywordRule, lower: string)
    requires r.requireAll && forall k :: 0 <= k < |r.keywords| ==> r.keywords[k] in patterns
    ensures IndexedMatch(patterns, r, lower) <==>
      forall k :: 0 <= k < |r.keywords| ==> Present(r.wholeWord, lower, r.keywords[k])
  {
    forall k | 0 <= k < |r.keywords|
      ensures HitOf(patterns, r.wholeWord, lower, r.keywords[k]) <==> Present(r.wholeWord, lower, r.keywords[k])
    {
      var kw := r.keywords[k];
      if i :| Counts(r.wholeWord, lower, kw, i) {
        var p :| 0 <= p < |patterns| && patterns[p] == kw;
        assert GoodHit(patterns, r.wholeWord, lower, Match(p, i));
      }
      if m :| GoodHit(patterns, r.wholeWord, lower, m) && patterns[m.pattern] == kw {
        assert Counts(r.wholeWord, lower, kw, m.index);
      }
    }
  }

  lemma NestedOccurrence(ww: bool, text: string, p: string, i: int, kw: string, j: int)
    requires Counts(ww, text, p, i) && Counts(ww, p, kw, j)
    ensures Counts(ww, text, kw, i + j)
  {
    var inner, own := text[i..i + |p|], p[j..j + |kw|];
    forall x | 0 <= x < |kw| ensures text[i + j..i + j + |kw|][x] == kw[x] {
      assert own[x] == p[j + x] && inner[j + x] == text[i + j + x];
    }
    if ww {
      if j > 0 {
        assert text[i + j - 1] == p[j - 1];
      }
      if j + |kw| < |p| {
        assert text[i + j + |kw|] == p[j + |kw|];
      }
    }
  }

  /** A pattern that occurs in a lower-cased line is itself lower-case. */
  lemma OccursLower(line: string, p: string, i: int)
    requires OccursAt(ToLower(line), p, i)
    ensures ToLower(p) == p
  {
    var lower := ToLower(line);
    forall x | 0 <= x < |p| ensures ToLower(p)[x] == p[x] {
      assert p[x] == lower[i..i + |p|][x] == lower[i + x];
      LowerAt(line, i + x);
      LowerAt(p, x);
    }
  }

  /** A rule whose keywords are indexed never needs the plain path. */
  lemma MatchIsIndexed(patterns: seq<string>, r: KeywordRule, line: string)
    requires !r.caseSensitive && !r.requireAll && r.keywords != []
    requires forall k :: 0 <= k < |r.keywords| ==> r.keywords[k] in patterns
    ensures RuleMatches(patterns, r, line) <==> IndexedMatch(patterns, r, ToLower(line))
  {
    var lower := ToLower(line);
    if k :| 0 <= k < |r.keywords| && FirstCounts(r.wholeWord, lower, r.keywords[k]) {
      var p :| 0 <= p < |patterns| && patterns[p] == r.keywords[k];
      assert IsHit(patterns, lower, Match(p, FirstFrom(lower, r.keywords[k], 0)));
    }
  }

  lemma PatternMatchesItself(patterns: seq<string>, r: KeywordRule, p: string)
    requires !r.requireAll && p in patterns
    ensures IndexedMatch(patterns, r, p)
  {
    var k :| 0 <= k < |patterns| && patterns[k] == p;
    assert p[0..|p|] == p;
    assert GoodHit(patterns, r.wholeWord, p, Match(k, 0));
  }

  lemma HitContainsOwn(patterns: seq<string>, r: KeywordRule, line: string)
    requires !r.requireAll && forall p :: p in patterns && ToLower(p) == p ==> OwnOccurs(r, p)
    ensures IndexedMatch(patterns, r, ToLower(line)) ==> OwnOccurs(r, ToLower(line))
  {
    var text := ToLower(line);
    if m :| GoodHit(patterns, r.wholeWord, text, m) {
      var p := patterns[m.pattern];
      OccursLower(line, p, m.index);
      assert p in patterns;
      var k :| 0 <= k < |r.keywords| && Present(r.wholeWord, p, r.keywords[k]);
      var j :| Counts(r.wholeWord, p, r.keywords[k], j);
      NestedOccurrence(r.wholeWord, text, p, m.index, r.keywords[k], j);
    }
  }

  lemma OwnHitIsIndexed(patterns: seq<string>, r: KeywordRule, text: string)
    requires !r.requireAll && forall k :: 0 <= k < |r.keywords| ==> r.keywords[k] in patterns
    ensures OwnOccurs(r, text) ==> IndexedMatch(patterns, r, text)
  {
    if k :| 0 <= k < |r.keywords| && Present(r.wholeWord, text, r.keywords[k]) {
      var i :| Counts(r.wholeWord, text, r.keywords[k], i);
      var p :| 0 <= p < |patterns| && patterns[p] == r.keywords[k];
      assert GoodHit(patterns, r.wholeWord, text, Match(p, i));
    }
  }

  /** The rule is found in exactly the lines that have one of its own keywords. */
  ghost predicate ExactOn(patterns: seq<string>, r: KeywordRule, line: string) {
    RuleMatches(patterns, r, line) <==> OwnOccurs(r, ToLower(line))
  }

  /** Any-logic on the index does not filter hits by the rule's own keywords, so it is exact on
      every line if and only if every pattern that a lower-cased line can contain at all has
      one of them in it. */
  lemma IndexedAnyExactIff(patterns: seq<string>, r: KeywordRule)
    requires !r.caseSensitive && !r.requireAll && r.keywords != []
    requires forall k :: 0 <= k < |r.keywords| ==> r.keywords[k] in patterns
    ensures (forall line :: ExactOn(patterns, r, line)) <==>
      forall p :: p in patterns && ToLower(p) == p ==> OwnOccurs(r, p)
  {
    if forall line :: ExactOn(patterns, r, line) {
      forall p | p in patterns && ToLower(p) == p ensures OwnOccurs(r, p) {
        assert ExactOn(patterns, r, p);
        MatchIsIndexed(patterns, r, p);
        PatternMatchesItself(patterns, r, p);
      }
    }
    if forall p :: p in patterns && ToLower(p) == p ==> OwnOccurs(r, p) {
      forall line ensures ExactOn(patterns, r, line) {
        MatchIsIndexed(patterns, r, line);
        HitContainsOwn(patterns, r, line);
        OwnHitIsIndexed(patterns, r, ToLower(line));
      }
    }
  }

  /** Looking at the first occurrence only finds a keyword in every text that has it exactly
      when the rule does not ask for whole words. */
  lemma FirstIsEnoughIff(ww: bool, kw: string)
    requires kw != ""
    ensures (forall text :: FirstCounts(ww, text, kw) <==> Present(ww, text, kw)) <==> !ww
  {
    forall text | FirstCounts(ww, text, kw) ensures Present(ww, text, kw) {
      assert Counts(ww, text, kw, FirstFrom(text, kw, 0));
    }
    if ww {
      var text := LaterWordMissed(kw, if kw[0] == 'a' then 'b' else 'a');
    } else {
      forall text | Present(ww, text, kw) ensures FirstCounts(ww, text, kw) {
        var i :| Counts(ww, text, kw, i);
      }
    }
  }

  /** The keyword glued to a letter first and standing alone later. */
  lemma LaterWordMissed(kw: string, c: char) returns (text: string)
    requires kw != "" && IsWordChar(c) && c != kw[0]
    ensures !FirstCounts(true, text, kw) && Present(true, text, kw)
  {
    text := [c] + (kw + (" " + kw));
    assert text[1..1 + |kw|] == kw && text[0] == c;
    assert text[0..|kw|][0] == c;
    assert OccursAt(text, kw, 1) && !OccursAt(text, kw, 0);
    assert FirstFrom(text, kw, 0) == 1;
    var k := |kw| + 2;
    assert text[k..k + |kw|] == kw;
    assert text[k - 1] == (kw + (" " + kw))[|kw|] == ' ';
    assert Counts(true, text, kw, k);
  }

  /** The plain whole-word test stops at the first occurrence and can miss a later one. */
  lemma PlainMissesLaterWord()
    ensures var r := KeywordRule("r", ["at"], false, true, false);
      !PlainMatch(r, "cat at") && OwnOccurs(r, "cat at")
  {
    var r := KeywordRule("r", ["at"], false, true, false);
    var t := "cat at";
    assert t[0..2][0] == 'c' && t[1..3] == "at" && t[4..6] == "at";
    assert Counts(true, t, r.keywords[0], 4);
    assert FirstFrom(t, "at", 0) == 1;
  }
}
