/** Keyword evaluation with its per-line dedup keys (internal/scanner/evaluate.go). */
module KeywordEval {
  import opened Ordering
  import opened Aho
  import opened DedupKeys
  import opened Keywords

  datatype Violation = Violation(ruleId: string, line: nat, column: nat)

  ghost predicate Reported(vs: seq<Violation>, id: string, line: nat) {
    exists k :: 0 <= k < |vs| && vs[k].ruleId == id && vs[k].line == line
  }

  // ---------- recording under formatted keys ----------

  datatype Attempt = Attempt(key: Key, column: nat)

  /** The scan result and `compiledSeen`. */
  datatype Tally = Tally(violations: seq<Violation>, seen: set<string>)

  /** A violation is recorded unless its formatted key was used before, by whichever rule. */
  function Note(s: Tally, a: Attempt): Tally {
    var text := KeyText(a.key);
    if text in s.seen then s
    else Tally(s.violations + [Violation(a.key.id, a.key.line, a.column)], s.seen + {text})
  }

  function Fold<S, A>(f: (S, A) -> S, s: S, xs: seq<A>): S {
    if xs == [] then s else f(Fold(f, s, xs[..|xs| - 1]), xs[|xs| - 1])
  }

  lemma {:induction false} FoldConcat<S, A>(f: (S, A) -> S, s: S, a: seq<A>, b: seq<A>)
    ensures Fold(f, s, a + b) == Fold(f, Fold(f, s, a), b)
  {
    if b == [] {
      assert a + b == a;
    } else {
      var ab := a + b;
      FoldConcat(f, s, a, b[..|b| - 1]);
      assert ab[..|ab| - 1] == a + b[..|b| - 1];
    }
  }

  function NoteAll(s: Tally, attempts: seq<Attempt>): Tally {
    Fold(Note, s, attempts)
  }

  lemma NoteConcat(s: Tally, a: seq<Attempt>, b: seq<Attempt>)
    ensures NoteAll(s, a + b) == NoteAll(NoteAll(s, a), b)
  {
    FoldConcat(Note, s, a, b);
  }

  lemma NoteOne(s: Tally, attempts: seq<Attempt>, a: Attempt)
    ensures NoteAll(s, attempts + [a]) == Note(NoteAll(s, attempts), a)
  {
    assert (attempts + [a])[..|attempts|] == attempts;
  }

  // ---------- what each path tries to record ----------

  /** First occurrences of the first n keywords. */
  ghost function FirstAttempts(r: KeywordRule, hay: string, line: nat, n: nat): seq<Attempt>
    requires n <= |r.keywords|
  {
    if n == 0 then []
    else
      var kw := r.keywords[n - 1];
      var idx := FirstFrom(hay, kw, 0);
      FirstAttempts(r, hay, line, n - 1) +
      if FirstCounts(r.wholeWord, hay, kw) then [Attempt(KeywordKey(r.id, line, kw, idx), idx + 1)] else []
  }

  ghost function AfterFirst(s: Tally, r: KeywordRule, hay: string, kw: string, line: nat): Tally {
    var idx := FirstFrom(hay, kw, 0);
    if FirstCounts(r.wholeWord, hay, kw) then Note(s, Attempt(KeywordKey(r.id, line, kw, idx), idx + 1)) else s
  }

  lemma FirstAttemptsStep(s: Tally, r: KeywordRule, hay: string, line: nat, k: nat)
    requires k < |r.keywords|
    ensures NoteAll(s, FirstAttempts(r, hay, line, k + 1)) ==
      AfterFirst(NoteAll(s, FirstAttempts(r, hay, line, k)), r, hay, r.keywords[k], line)
  {
    var idx, prefix := FirstFrom(hay, r.keywords[k], 0), FirstAttempts(r, hay, line, k);
    if FirstCounts(r.wholeWord, hay, r.keywords[k]) {
      NoteOne(s, prefix, Attempt(KeywordKey(r.id, line, r.keywords[k], idx), idx + 1));
    } else {
      assert FirstAttempts(r, hay, line, k + 1) == prefix;
    }
  }

  ghost function AllAttempt(r: KeywordRule, line: nat, present: bool, firstIdx: int): seq<Attempt> {
    if present then [Attempt(AllKey(r.id, line), if firstIdx >= 0 then firstIdx + 1 else 1)] else []
  }

  ghost function PlainAttempts(r: KeywordRule, hay: string, line: nat): seq<Attempt>
    requires r.keywords != []
  {
    if r.requireAll then
      AllAttempt(r, line, AllFirst(r, hay, |r.keywords|), FirstFrom(hay, r.keywords[0], 0))
    else FirstAttempts(r, hay, line, |r.keywords|)
  }

  ghost predicate AllHits(patterns: seq<string>, lower: string, hits: seq<Match>) {
    forall k :: 0 <= k < |hits| ==> IsHit(patterns, lower, hits[k])
  }

  /** Hits among the first n that pass the whole-word option. */
  ghost function HitAttempts(patterns: seq<string>, r: KeywordRule, lower: string, hits: seq<Match>, line: nat, n: nat): seq<Attempt>
    requires n <= |hits| && AllHits(patterns, lower, hits)
  {
    if n == 0 then []
    else
      var m := hits[n - 1];
      HitAttempts(patterns, r, lower, hits, line, n - 1) +
      if GoodHit(patterns, r.wholeWord, lower, m)
      then [Attempt(KeywordKey(r.id, line, patterns[m.pattern], m.index), m.index + 1)] else []
  }

  ghost function AfterHit(s: Tally, r: KeywordRule, kw: string, lower: string, idx: nat, line: nat): Tally
    requires idx + |kw| <= |lower|
  {
    if WordOk(r.wholeWord, lower, idx, |kw|) then Note(s, Attempt(KeywordKey(r.id, line, kw, idx), idx + 1)) else s
  }

  lemma HitAttemptsStep(s: Tally, patterns: seq<string>, r: KeywordRule, lower: string, hits: seq<Match>, line: nat, k: nat)
    requires k < |hits| && AllHits(patterns, lower, hits)
    ensures IsHit(patterns, lower, hits[k])
    ensures NoteAll(s, HitAttempts(patterns, r, lower, hits, line, k + 1)) ==
      AfterHit(NoteAll(s, HitAttempts(patterns, r, lower, hits, line, k)), r, patterns[hits[k].pattern], lower, hits[k].index, line)
  {
    var m, prefix := hits[k], HitAttempts(patterns, r, lower, hits, line, k);
    if GoodHit(patterns, r.wholeWord, lower, m) {
      NoteOne(s, prefix, Attempt(KeywordKey(r.id, line, patterns[m.pattern], m.index), m.index + 1));
    } else {
      assert HitAttempts(patterns, r, lower, hits, line, k + 1) == prefix;
    }
  }

  /** Position of the first hit that passes, or -1. */
  ghost function FirstGood(patterns: seq<string>, ww: bool, lower: string, hits: seq<Match>, n: nat): int
    requires n <= |hits|
  {
    if n == 0 then -1
    else
      var f := FirstGood(patterns, ww, lower, hits, n - 1);
      if f < 0 && GoodHit(patterns, ww, lower, hits[n - 1]) then hits[n - 1].index else f
  }

  ghost predicate FoundKw(patterns: seq<string>, r: KeywordRule, lower: string, hits: seq<Match>, n: nat, kw: string) {
    exists k :: 0 <= k < n <= |hits| && GoodHit(patterns, r.wholeWord, lower, hits[k]) && patterns[hits[k].pattern] == kw
  }

  ghost predicate AllFound(patterns: seq<string>, r: KeywordRule, lower: string, hits: seq<Match>) {
    forall j :: 0 <= j < |r.keywords| ==> FoundKw(patterns, r, lower, hits, |hits|, r.keywords[j])
  }

  ghost function IndexedAttempts(patterns: seq<string>, r: KeywordRule, lower: string, hits: seq<Match>, line: nat): seq<Attempt>
    requires AllHits(patterns, lower, hits)
  {
    if r.requireAll then
      AllAttempt(r, line, AllFound(patterns, r, lower, hits), FirstGood(patterns, r.wholeWord, lower, hits, |hits|))
    else HitAttempts(patterns, r, lower, hits, line, |hits|)
  }

  /** What `FindAll` hands over. */
  ghost predicate HitsOf(patterns: seq<string>, lower: string, hits: seq<Match>) {
    NoDup(hits) && SortedBy(hits, ByIndex) && forall m :: m in hits <==> IsHit(patterns, lower, m)
  }

  lemma HitsOfAll(patterns: seq<string>, lower: string, hits: seq<Match>)
    requires HitsOf(patterns, lower, hits)
    ensures AllHits(patterns, lower, hits)
  {
    assert forall k :: 0 <= k < |hits| ==> hits[k] in hits;
  }

  ghost function RuleAttempts(patterns: seq<string>, r: KeywordRule, text: string, hits: seq<Match>, line: nat): seq<Attempt>
    requires AllHits(patterns, ToLower(text), hits)
  {
    if r.keywords == [] then []
    else if !r.caseSensitive && hits != [] then IndexedAttempts(patterns, r, ToLower(text), hits, line)
    else PlainAttempts(r, Haystack(r, text), line)
  }

  ghost function LineAttempts(patterns: seq<string>, rules: seq<KeywordRule>, text: string, hits: seq<Match>, line: nat): seq<Attempt>
    requires AllHits(patterns, ToLower(text), hits)
  {
    if rules == [] then []
    else
      LineAttempts(patterns, rules[..|rules| - 1], text, hits, line) +
      RuleAttempts(patterns, rules[|rules| - 1], text, hits, line)
  }

  ghost predicate HitLists(patterns: seq<string>, texts: seq<string>, hs: seq<seq<Match>>) {
    |hs| == |texts| && forall k :: 0 <= k < |hs| ==> HitsOf(patterns, ToLower(texts[k]), hs[k])
  }

  /** All texts evaluated under one dedup set. */
  ghost function TextsAttempts(patterns: seq<string>, rules: seq<KeywordRule>, texts: seq<string>, hs: seq<seq<Match>>, line: nat): seq<Attempt>
    requires HitLists(patterns, texts, hs)
  {
    if texts == [] then []
    else
      var n := |texts| - 1;
      HitsOfAll(patterns, ToLower(texts[n]), hs[n]);
      TextsAttempts(patterns, rules, texts[..n], hs[..n], line) +
      LineAttempts(patterns, rules, texts[n], hs[n], line)
  }

  /** What evaluating the texts of one line with a fresh `compiledSeen` makes of the violations. */
  ghost predicate IsEvaluation(patterns: seq<string>, rules: seq<KeywordRule>, texts: seq<string>, line: nat,
    before: seq<Violation>, after: seq<Violation>)
  {
    exists hs :: HitLists(patterns, texts, hs) &&
      after == NoteAll(Tally(before, {}), TextsAttempts(patterns, rules, texts, hs, line)).violations
  }

  // ---------- the evaluating methods ----------

  class LineScan {
    var violations: seq<Violation>
    var seen: set<string>

    constructor (violations: seq<Violation>)
      ensures State() == Tally(violations, {})
    {
      this.violations := violations;
      seen := {};
    }

    ghost function State(): Tally reads this {
      Tally(violations, seen)
    }

    method Report(key: Key, column: nat) returns (added: bool)
      modifies this
      ensures State() == Note(old(State()), Attempt(key, column))
      ensures added <==> |violations| > |old(violations)|
      ensures |violations| >= |old(violations)|
    {
      var text := KeyText(key);
      if text in seen {
        return false;
      }
      seen := seen + {text};
      violations := violations + [Violation(key.id, key.line, column)];
      return true;
    }

    method EvalPlainAny(r: KeywordRule, hay: string, line: nat) returns (any: bool)
      requires r.keywords != [] && !r.requireAll
      modifies this
      ensures State() == NoteAll(old(State()), PlainAttempts(r, hay, line))
      ensures any <==> |violations| > |old(violations)|
    {
      any := false;
      for k := 0 to |r.keywords|
        invariant State() == NoteAll(old(State()), FirstAttempts(r, hay, line, k))
        invariant |violations| >= |old(violations)| && (any <==> |violations| > |old(violations)|)
      {
        FirstAttemptsStep(old(State()), r, hay, line, k);
        var added := TryFirst(r, hay, r.keywords[k], line);
        any := any || added;
      }
    }

    method TryFirst(r: KeywordRule, hay: string, kw: string, line: nat) returns (added: bool)
      modifies this
      ensures State() == AfterFirst(old(State()), r, hay, kw, line)
      ensures |violations| >= |old(violations)| && (added <==> |violations| > |old(violations)|)
    {
      var idx := FirstFrom(hay, kw, 0);
      if idx < 0 || !WordOk(r.wholeWord, hay, idx, |kw|) {
        return false;
      }
      added := Report(KeywordKey(r.id, line, kw, idx), idx + 1);
    }

    method EvalPlainAll(r: KeywordRule, hay: string, line: nat) returns (any: bool)
      requires r.keywords != [] && r.requireAll
      modifies this
      ensures State() == NoteAll(old(State()), PlainAttempts(r, hay, line))
      ensures any <==> |violations| > |old(violations)|
    {
      var firstIdx := -1;
      for k := 0 to |r.keywords|
        invariant AllFirst(r, hay, k)
        invariant firstIdx == if k == 0 then -1 else FirstFrom(hay, r.keywords[0], 0)
        invariant unchanged(this)
      {
        var kw := r.keywords[k];
        var idx := FirstFrom(hay, kw, 0);
        if idx < 0 || !WordOk(r.wholeWord, hay, idx, |kw|) {
          return false;
        }
        if firstIdx < 0 {
          firstIdx := idx;
        }
      }
      var col := if firstIdx >= 0 then firstIdx + 1 else 1;
      NoteOne(State(), [], Attempt(AllKey(r.id, line), col));
      assert [] + [Attempt(AllKey(r.id, line), col)] == PlainAttempts(r, hay, line);
      any := Report(AllKey(r.id, line), col);
    }

    method EvalIndexed(patterns: seq<string>, r: KeywordRule, lower: string, hits: seq<Match>, line: nat) returns (any: bool)
      requires AllHits(patterns, lower, hits)
      modifies this
      ensures State() == NoteAll(old(State()), IndexedAttempts(patterns, r, lower, hits, line))
      ensures any <==> |violations| > |old(violations)|
    {
      if !r.requireAll {
        any := EvalIndexedAny(patterns, r, lower, hits, line);
        return;
      }
      var found: map<string, nat> := map[];
      var firstIdx: int := -1;
      for k := 0 to |hits|
        invariant firstIdx == FirstGood(patterns, r.wholeWord, lower, hits, k) && firstIdx >= -1
        invariant forall kw :: kw in found <==> FoundKw(patterns, r, lower, hits, k, kw)
        invariant unchanged(this)
      {
        var kw := patterns[hits[k].pattern];
        var idx := hits[k].index;
        if !WordOk(r.wholeWord, lower, idx, |kw|) {
          continue;
        }
        assert GoodHit(patterns, r.wholeWord, lower, hits[k]);
        if firstIdx < 0 {
          firstIdx := idx;
        }
        if kw !in found {
          found := found[kw := idx];
        }
      }
      for k := 0 to |r.keywords|
        invariant forall j :: 0 <= j < k ==> r.keywords[j] in found
        invariant unchanged(this)
      {
        if r.keywords[k] !in found {
          return false;
        }
      }
      var col := if firstIdx >= 0 then firstIdx + 1 else 1;
      NoteOne(State(), [], Attempt(AllKey(r.id, line), col));
      assert [] + [Attempt(AllKey(r.id, line), col)] == IndexedAttempts(patterns, r, lower, hits, line);
      any := Report(AllKey(r.id, line), col);
    }

    /** The loop over hits when one hit is enough; nothing else of that loop is then used. */
    method EvalIndexedAny(patterns: seq<string>, r: KeywordRule, lower: string, hits: seq<Match>, line: nat) returns (any: bool)
      requires AllHits(patterns, lower, hits)
      modifies this
      ensures State() == NoteAll(old(State()), HitAttempts(patterns, r, lower, hits, line, |hits|))
      ensures any <==> |violations| > |old(violations)|
    {
      any := false;
      for k := 0 to |hits|
        invariant State() == NoteAll(old(State()), HitAttempts(patterns, r, lower, hits, line, k))
        invariant |violations| >= |old(violations)| && (any <==> |violations| > |old(violations)|)
      {
        HitAttemptsStep(old(State()), patterns, r, lower, hits, line, k);
        var added := TryHit(patterns, r, lower, hits[k], line);
        any := any || added;
      }
    }

    method TryHit(patterns: seq<string>, r: KeywordRule, lower: string, m: Match, line: nat) returns (added: bool)
      requires IsHit(patterns, lower, m)
      modifies this
      ensures State() == AfterHit(old(State()), r, patterns[m.pattern], lower, m.index, line)
      ensures |violations| >= |old(violations)| && (added <==> |violations| > |old(violations)|)
    {
      var kw := patterns[m.pattern];
      if !WordOk(r.wholeWord, lower, m.index, |kw|) {
        return false;
      }
      added := Report(KeywordKey(r.id, line, kw, m.index), m.index + 1);
    }

    /** `evalKeywords` without first-match; its one caller passes rules with keywords only. */
    method EvalKeywords(patterns: seq<string>, r: KeywordRule, line: string, lineNum: nat, hits: seq<Match>) returns (any: bool)
      requires r.keywords != [] && AllHits(patterns, ToLower(line), hits)
      modifies this
      ensures State() == NoteAll(old(State()), RuleAttempts(patterns, r, line, hits, lineNum))
      ensures any <==> |violations| > |old(violations)|
    {
      if !r.caseSensitive && |hits| > 0 {
        any := EvalIndexed(patterns, r, ToLower(line), hits, lineNum);
        return;
      }
      if r.requireAll {
        any := EvalPlainAll(r, Haystack(r, line), lineNum);
        return;
      }
      any := EvalPlainAny(r, Haystack(r, line), lineNum);
    }

    /** The keyword part of `evaluateLine`, over all compiled rules. */
    method EvaluateLine(patterns: seq<string>, rules: seq<KeywordRule>, line: string, lineNum: nat, ids: seq<nat>)
      returns (ghost hits: seq<Match>)
      requires "" !in patterns && OccurringIds(patterns, ToLower(line), ids)
      modifies this
      ensures HitsOf(patterns, ToLower(line), hits) && AllHits(patterns, ToLower(line), hits)
      ensures State() == NoteAll(old(State()), LineAttempts(patterns, rules, line, hits, lineNum))
    {
      var ahoHits := FindAll(patterns, ToLower(line), ids);
      hits := ahoHits;
      HitsOfAll(patterns, ToLower(line), hits);
      for k := 0 to |rules|
        invariant State() == NoteAll(old(State()), LineAttempts(patterns, rules[..k], line, ahoHits, lineNum))
      {
        assert rules[..k + 1][..k] == rules[..k];
        var r := rules[k];
        NoteConcat(old(State()), LineAttempts(patterns, rules[..k], line, ahoHits, lineNum),
          RuleAttempts(patterns, r, line, ahoHits, lineNum));
        if |r.keywords| > 0 {
          var any := EvalKeywords(patterns, r, line, lineNum, ahoHits);
        }
      }
      assert rules[..|rules|] == rules;
    }
  }
}
