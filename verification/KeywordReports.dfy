/** Which rules end up reported on a line, given that dedup keys are formatted strings
    (internal/scanner/evaluate.go). */
module KeywordReports {
  import opened Aho
  import opened DedupKeys
  import opened Keywords
  import opened KeywordEval

  // ---------- what an evaluation attempts ----------

  ghost predicate Owned(attempts: seq<Attempt>, id: string, line: nat) {
    forall k :: 0 <= k < |attempts| ==> attempts[k].key.id == id && attempts[k].key.line == line
  }

  /** Each attempt names an occurrence of its keyword and the column where it starts, counted from 1. */
  ghost predicate Pointed(attempts: seq<Attempt>, hay: string) {
    forall k :: 0 <= k < |attempts| ==> PointsAt(attempts[k], hay)
  }

  ghost predicate PointsAt(a: Attempt, hay: string) {
    a.key.KeywordKey? && OccursAt(hay, a.key.kw, a.key.index) && a.column - 1 == a.key.index
  }

  lemma {:induction false} FirstAttemptsMeaning(r: KeywordRule, hay: string, line: nat, n: nat)
    requires n <= |r.keywords|
    ensures Owned(FirstAttempts(r, hay, line, n), r.id, line) && Pointed(FirstAttempts(r, hay, line, n), hay)
    ensures FirstAttempts(r, hay, line, n) != [] <==> SomeFirst(r, hay, n)
  {
    if n > 0 {
      FirstAttemptsMeaning(r, hay, line, n - 1);
    }
  }

  ghost predicate SomeHit(patterns: seq<string>, r: KeywordRule, lower: string, hits: seq<Match>, n: nat) {
    exists k :: 0 <= k < n <= |hits| && GoodHit(patterns, r.wholeWord, lower, hits[k])
  }

  lemma {:induction false} HitAttemptsMeaning(patterns: seq<string>, r: KeywordRule, lower: string, hits: seq<Match>, line: nat, n: nat)
    requires n <= |hits| && AllHits(patterns, lower, hits)
    ensures Owned(HitAttempts(patterns, r, lower, hits, line, n), r.id, line)
    ensures Pointed(HitAttempts(patterns, r, lower, hits, line, n), lower)
    ensures HitAttempts(patterns, r, lower, hits, line, n) != [] <==> SomeHit(patterns, r, lower, hits, n)
  {
    if n > 0 {
      HitAttemptsMeaning(patterns, r, lower, hits, line, n - 1);
    }
  }

  lemma HitsMeaning(patterns: seq<string>, r: KeywordRule, lower: string, hits: seq<Match>)
    requires HitsOf(patterns, lower, hits)
    ensures SomeHit(patterns, r, lower, hits, |hits|) <==> exists m :: GoodHit(patterns, r.wholeWord, lower, m)
    ensures AllFound(patterns, r, lower, hits) <==>
      forall j :: 0 <= j < |r.keywords| ==> HitOf(patterns, r.wholeWord, lower, r.keywords[j])
    ensures hits != [] <==> exists m :: IsHit(patterns, lower, m)
  {
    if m :| GoodHit(patterns, r.wholeWord, lower, m) {
      var k :| 0 <= k < |hits| && hits[k] == m;
    }
    forall kw ensures FoundKw(patterns, r, lower, hits, |hits|, kw) <==> HitOf(patterns, r.wholeWord, lower, kw) {
      if m :| GoodHit(patterns, r.wholeWord, lower, m) && patterns[m.pattern] == kw {
        var k :| 0 <= k < |hits| && hits[k] == m;
      }
    }
    if hits != [] {
      assert hits[0] in hits;
    }
  }

  lemma PlainAttemptsMeaning(r: KeywordRule, hay: string, line: nat)
    requires r.keywords != []
    ensures Owned(PlainAttempts(r, hay, line), r.id, line) && (!r.requireAll ==> Pointed(PlainAttempts(r, hay, line), hay))
    ensures PlainAttempts(r, hay, line) != [] <==> PlainMatch(r, hay)
  {
    FirstAttemptsMeaning(r, hay, line, |r.keywords|);
  }

  lemma IndexedAttemptsMeaning(patterns: seq<string>, r: KeywordRule, lower: string, hits: seq<Match>, line: nat)
    requires HitsOf(patterns, lower, hits) && AllHits(patterns, lower, hits)
    ensures Owned(IndexedAttempts(patterns, r, lower, hits, line), r.id, line)
    ensures !r.requireAll ==> Pointed(IndexedAttempts(patterns, r, lower, hits, line), lower)
    ensures IndexedAttempts(patterns, r, lower, hits, line) != [] <==> IndexedMatch(patterns, r, lower)
  {
    HitsMeaning(patterns, r, lower, hits);
    HitAttemptsMeaning(patterns, r, lower, hits, line, |hits|);
  }

  /** Something is attempted for a rule exactly when the rule matches, at the columns of its occurrences. */
  lemma RuleAttemptsMeaning(patterns: seq<string>, r: KeywordRule, text: string, hits: seq<Match>, line: nat)
    requires HitsOf(patterns, ToLower(text), hits) && AllHits(patterns, ToLower(text), hits)
    ensures Owned(RuleAttempts(patterns, r, text, hits, line), r.id, line)
    ensures !r.requireAll ==> Pointed(RuleAttempts(patterns, r, text, hits, line), Haystack(r, text))
    ensures RuleAttempts(patterns, r, text, hits, line) != [] <==> RuleMatches(patterns, r, text)
  {
    assert hits != [] <==> exists m :: IsHit(patterns, ToLower(text), m) by {
      HitsMeaning(patterns, r, ToLower(text), hits);
    }
    if r.keywords != [] {
      if !r.caseSensitive && hits != [] {
        IndexedAttemptsMeaning(patterns, r, ToLower(text), hits, line);
      } else {
        PlainAttemptsMeaning(r, Haystack(r, text), line);
      }
    }
  }

  ghost predicate Attempted(attempts: seq<Attempt>, id: string, line: nat) {
    exists k :: 0 <= k < |attempts| && attempts[k].key.id == id && attempts[k].key.line == line
  }

  lemma AttemptedConcat(a: seq<Attempt>, b: seq<Attempt>, id: string, line: nat)
    ensures Attempted(a + b, id, line) <==> Attempted(a, id, line) || Attempted(b, id, line)
  {
    if k :| 0 <= k < |a| && a[k].key.id == id && a[k].key.line == line {
      assert (a + b)[k] == a[k];
    }
    if k :| 0 <= k < |b| && b[k].key.id == id && b[k].key.line == line {
      assert (a + b)[|a| + k] == b[k];
    }
  }

  ghost predicate MatchedIn(patterns: seq<string>, rules: seq<KeywordRule>, texts: seq<string>, id: string) {
    exists r, t :: r in rules && t in texts && r.id == id && RuleMatches(patterns, r, t)
  }

  lemma MatchedOneMoreRule(patterns: seq<string>, rules: seq<KeywordRule>, text: string, id: string)
    requires rules != []
    ensures var n := |rules| - 1;
      MatchedIn(patterns, rules, [text], id) <==>
        MatchedIn(patterns, rules[..n], [text], id) || (rules[n].id == id && RuleMatches(patterns, rules[n], text))
  {
    var n := |rules| - 1;
    assert rules == rules[..n] + [rules[n]];
    if rules[n].id == id && RuleMatches(patterns, rules[n], text) {
      assert rules[n] in rules && text in [text];
    }
  }

  lemma {:induction false} LineAttemptsMeaning(patterns: seq<string>, rules: seq<KeywordRule>, text: string, hits: seq<Match>,
    line: nat, id: string, l: nat)
    requires HitsOf(patterns, ToLower(text), hits) && AllHits(patterns, ToLower(text), hits)
    ensures Attempted(LineAttempts(patterns, rules, text, hits, line), id, l) <==>
      l == line && MatchedIn(patterns, rules, [text], id)
  {
    if rules != [] {
      var n := |rules| - 1;
      LineAttemptsMeaning(patterns, rules[..n], text, hits, line, id, l);
      RuleAttemptsMeaning(patterns, rules[n], text, hits, line);
      MatchedOneMoreRule(patterns, rules, text, id);
      var own := RuleAttempts(patterns, rules[n], text, hits, line);
      AttemptedConcat(LineAttempts(patterns, rules[..n], text, hits, line), own, id, l);
      assert own != [] ==> own[0].key.id == rules[n].id && own[0].key.line == line;
    }
  }

  lemma MatchedOneMoreText(patterns: seq<string>, rules: seq<KeywordRule>, texts: seq<string>, id: string)
    requires texts != []
    ensures var n := |texts| - 1;
      MatchedIn(patterns, rules, texts, id) <==>
        MatchedIn(patterns, rules, texts[..n], id) || MatchedIn(patterns, rules, [texts[n]], id)
  {
    var n := |texts| - 1;
    assert texts == texts[..n] + [texts[n]];
  }

  lemma {:induction false} TextsAttemptsMeaning(patterns: seq<string>, rules: seq<KeywordRule>, texts: seq<string>,
    hs: seq<seq<Match>>, line: nat, id: string, l: nat)
    requires HitLists(patterns, texts, hs)
    ensures Attempted(TextsAttempts(patterns, rules, texts, hs, line), id, l) <==>
      l == line && MatchedIn(patterns, rules, texts, id)
  {
    if texts != [] {
      var n := |texts| - 1;
      HitsOfAll(patterns, ToLower(texts[n]), hs[n]);
      TextsAttemptsMeaning(patterns, rules, texts[..n], hs[..n], line, id, l);
      LineAttemptsMeaning(patterns, rules, texts[n], hs[n], line, id, l);
      MatchedOneMoreText(patterns, rules, texts, id);
      AttemptedConcat(TextsAttempts(patterns, rules, texts[..n], hs[..n], line),
        LineAttempts(patterns, rules, texts[n], hs[n], line), id, l);
    }
  }

  // ---------- what recording makes of the attempts ----------

  /** No two different ids can share a formatted key on the line. */
  ghost predicate NoClash(ids: set<string>, line: nat) {
    forall a, b :: a in ids && b in ids && a != b ==> !Clash(a, b, line)
  }

  ghost predicate BackedBy(s: Tally, ids: set<string>, line: nat, text: string, key: Key) {
    key.id in ids && key.line == line && KeyText(key) == text && Reported(s.violations, key.id, line)
  }

  /** Every dedup key has a violation of its own rule to show for it. */
  ghost predicate Backed(s: Tally, ids: set<string>, line: nat) {
    forall text :: text in s.seen ==> exists key :: BackedBy(s, ids, line, text, key)
  }

  lemma ReportedOne(vs: seq<Violation>, v: Violation, id: string, l: nat)
    ensures Reported(vs + [v], id, l) <==> Reported(vs, id, l) || (id == v.ruleId && l == v.line)
  {
    if id == v.ruleId && l == v.line {
      assert (vs + [v])[|vs|].ruleId == id;
    }
    if k :| 0 <= k < |vs| && vs[k].ruleId == id && vs[k].line == l {
      assert (vs + [v])[k] == vs[k];
    }
  }

  /** From `before` to `after` exactly these ids become reported, on these lines. */
  ghost predicate Adds(before: seq<Violation>, after: seq<Violation>, attempts: seq<Attempt>) {
    && before <= after
    && forall i, l :: Reported(after, i, l) <==> Reported(before, i, l) || Attempted(attempts, i, l)
  }

  lemma NoteBacked(s: Tally, a: Attempt, ids: set<string>, line: nat)
    requires Backed(s, ids, line) && NoClash(ids, line) && a.key.id in ids && a.key.line == line
    ensures Backed(Note(s, a), ids, line)
    ensures s.violations <= Note(s, a).violations
    ensures forall i, l :: Reported(Note(s, a).violations, i, l) <==>
      Reported(s.violations, i, l) || (i == a.key.id && l == line)
  {
    var text, s' := KeyText(a.key), Note(s, a);
    if text in s.seen {
      var key :| BackedBy(s, ids, line, text, key);
      KeyOwnersClash(key, a.key);
    } else {
      forall i, l ensures Reported(s'.violations, i, l) <==> Reported(s.violations, i, l) || (i == a.key.id && l == line) {
        ReportedOne(s.violations, Violation(a.key.id, a.key.line, a.column), i, l);
      }
      forall x | x in s'.seen ensures exists key :: BackedBy(s', ids, line, x, key) {
        if x == text {
          assert BackedBy(s', ids, line, x, a.key);
        } else {
          var key :| BackedBy(s, ids, line, x, key);
          assert BackedBy(s', ids, line, x, key);
        }
      }
    }
  }

  lemma AddsOneMore(before: seq<Violation>, mid: seq<Violation>, after: seq<Violation>, attempts: seq<Attempt>, a: Attempt)
    requires Adds(before, mid, attempts) && mid <= after
    requires forall i, l :: Reported(after, i, l) <==> Reported(mid, i, l) || (i == a.key.id && l == a.key.line)
    ensures Adds(before, after, attempts + [a])
  {
    forall i, l ensures Attempted(attempts + [a], i, l) <==> Attempted(attempts, i, l) || (i == a.key.id && l == a.key.line) {
      AttemptedConcat(attempts, [a], i, l);
      assert [a][0] == a;
    }
  }

  ghost predicate From(attempts: seq<Attempt>, ids: set<string>, line: nat) {
    forall k :: 0 <= k < |attempts| ==> attempts[k].key.id in ids && attempts[k].key.line == line
  }

  ghost predicate Exact(s: Tally, t: Tally, attempts: seq<Attempt>, ids: set<string>, line: nat) {
    Backed(t, ids, line) && Adds(s.violations, t.violations, attempts)
  }

  lemma NoteKeepsExact(s: Tally, mid: Tally, init: seq<Attempt>, a: Attempt, ids: set<string>, line: nat)
    requires NoClash(ids, line) && Exact(s, mid, init, ids, line) && a.key.id in ids && a.key.line == line
    ensures Exact(s, Note(mid, a), init + [a], ids, line)
  {
    NoteBacked(mid, a, ids, line);
    AddsOneMore(s.violations, mid.violations, Note(mid, a).violations, init, a);
  }

  /** Without clashes, recording reports exactly what was attempted. */
  lemma {:induction false} NoteAllExact(s: Tally, attempts: seq<Attempt>, ids: set<string>, line: nat)
    requires Backed(s, ids, line) && NoClash(ids, line) && From(attempts, ids, line)
    ensures Exact(s, NoteAll(s, attempts), attempts, ids, line)
    decreases |attempts|
  {
    if attempts != [] {
      var init, a := attempts[..|attempts| - 1], attempts[|attempts| - 1];
      assert attempts == init + [a];
      assert From(init, ids, line);
      NoteAllExact(s, init, ids, line);
      NoteKeepsExact(s, NoteAll(s, init), init, a, ids, line);
      NoteOne(s, init, a);
    }
  }

  // ---------- when evaluation reports exactly the matching rules ----------

  ghost function Ids(rules: seq<KeywordRule>): set<string> {
    set r | r in rules :: r.id
  }

  /** On this line exactly the rules matching in one of the texts become reported; other lines keep theirs. */
  ghost predicate ReportsMatches(patterns: seq<string>, rules: seq<KeywordRule>, texts: seq<string>, line: nat,
    before: seq<Violation>, after: seq<Violation>)
  {
    && before <= after
    && forall i, l :: Reported(after, i, l) <==> Reported(before, i, l) || (l == line && MatchedIn(patterns, rules, texts, i))
  }

  lemma EvaluationReports(patterns: seq<string>, rules: seq<KeywordRule>, texts: seq<string>, line: nat,
    before: seq<Violation>, after: seq<Violation>)
    requires IsEvaluation(patterns, rules, texts, line, before, after) && NoClash(Ids(rules), line)
    ensures ReportsMatches(patterns, rules, texts, line, before, after)
  {
    var hs :| HitLists(patterns, texts, hs) &&
      after == NoteAll(Tally(before, {}), TextsAttempts(patterns, rules, texts, hs, line)).violations;
    var attempts := TextsAttempts(patterns, rules, texts, hs, line);
    forall i, l ensures Attempted(attempts, i, l) <==> l == line && MatchedIn(patterns, rules, texts, i) {
      TextsAttemptsMeaning(patterns, rules, texts, hs, line, i, l);
    }
    assert From(attempts, Ids(rules), line) by {
      forall k | 0 <= k < |attempts| ensures attempts[k].key.id in Ids(rules) && attempts[k].key.line == line {
        assert Attempted(attempts, attempts[k].key.id, attempts[k].key.line);
      }
    }
    NoteAllExact(Tally(before, {}), attempts, Ids(rules), line);
  }

  lemma {:induction false} NoteAllOtherLines(s: Tally, attempts: seq<Attempt>, id: string, l: nat)
    requires forall k :: 0 <= k < |attempts| ==> attempts[k].key.line != l
    ensures Reported(NoteAll(s, attempts).violations, id, l) <==> Reported(s.violations, id, l)
    decreases |attempts|
  {
    if attempts != [] {
      var init, a := attempts[..|attempts| - 1], attempts[|attempts| - 1];
      NoteAllOtherLines(s, init, id, l);
      ReportedOne(NoteAll(s, init).violations, Violation(a.key.id, a.key.line, a.column), id, l);
    }
  }

  /** Clash or not, evaluating one line says nothing about another. */
  lemma EvaluationKeepsOtherLines(patterns: seq<string>, rules: seq<KeywordRule>, texts: seq<string>, line: nat,
    before: seq<Violation>, after: seq<Violation>, id: string, l: nat)
    requires IsEvaluation(patterns, rules, texts, line, before, after) && l != line
    ensures Reported(after, id, l) <==> Reported(before, id, l)
  {
    var hs :| HitLists(patterns, texts, hs) &&
      after == NoteAll(Tally(before, {}), TextsAttempts(patterns, rules, texts, hs, line)).violations;
    var attempts := TextsAttempts(patterns, rules, texts, hs, line);
    forall k | 0 <= k < |attempts| ensures attempts[k].key.line == line {
      assert Attempted(attempts, attempts[k].key.id, attempts[k].key.line);
      TextsAttemptsMeaning(patterns, rules, texts, hs, line, attempts[k].key.id, attempts[k].key.line);
    }
    NoteAllOtherLines(Tally(before, {}), attempts, id, l);
  }

  // ---------- what a shared key suppresses ----------

  /** A case-sensitive rule with one keyword. */
  function OneKeyword(id: string, kw: string): KeywordRule {
    KeywordRule(id, [kw], true, false, false)
  }

  lemma OneKeywordAttempts(id: string, kw: string, text: string, line: nat)
    requires OccursAt(text, kw, 0)
    ensures RuleAttempts([], OneKeyword(id, kw), text, [], line) == [Attempt(KeywordKey(id, line, kw, 0), 1)]
    ensures RuleMatches([], OneKeyword(id, kw), text)
  {
    var r := OneKeyword(id, kw);
    assert FirstFrom(text, kw, 0) == 0;
    assert FirstCounts(false, text, r.keywords[0]);
    assert FirstAttempts(r, text, line, 0) == [];
    assert FirstAttempts(r, text, line, 1) == [Attempt(KeywordKey(id, line, kw, 0), 1)];
    assert SomeFirst(r, text, 1);
  }

  /** Two rules that both match, with one key between them: the second is lost. */
  lemma SecondIsLost(a: string, kwA: string, b: string, kwB: string, text: string, line: nat)
    requires a != b && OccursAt(text, kwA, 0) && OccursAt(text, kwB, 0)
    requires KeyText(KeywordKey(a, line, kwA, 0)) == KeyText(KeywordKey(b, line, kwB, 0))
    ensures var rules, after := [OneKeyword(a, kwA), OneKeyword(b, kwB)], [Violation(a, line, 1)];
      && IsEvaluation([], rules, [text], line, [], after)
      && MatchedIn([], rules, [text], b) && !Reported(after, b, line)
      && !ReportsMatches([], rules, [text], line, [], after)
  {
    var rules, after := [OneKeyword(a, kwA), OneKeyword(b, kwB)], [Violation(a, line, 1)];
    var x, y := Attempt(KeywordKey(a, line, kwA, 0), 1), Attempt(KeywordKey(b, line, kwB, 0), 1);
    var hs: seq<seq<Match>> := [[]];
    OneKeywordAttempts(a, kwA, text, line);
    OneKeywordAttempts(b, kwB, text, line);
    assert HitLists([], [text], hs);
    TwoRuleAttempts(rules, text, line, x, y);
    TwoNotes(x, y);
    assert IsEvaluation([], rules, [text], line, [], after);
    assert rules[1] in rules && text in [text];
  }

  lemma TwoRuleAttempts(rules: seq<KeywordRule>, text: string, line: nat, x: Attempt, y: Attempt)
    requires |rules| == 2 && RuleAttempts([], rules[0], text, [], line) == [x] && RuleAttempts([], rules[1], text, [], line) == [y]
    requires HitLists([], [text], [[]])
    ensures TextsAttempts([], rules, [text], [[]], line) == [x, y]
  {
    assert rules[..1] == [rules[0]] && rules[..1][..0] == [];
    assert LineAttempts([], rules[..0], text, [], line) == [];
    assert LineAttempts([], rules[..1], text, [], line) == [x];
    assert LineAttempts([], rules, text, [], line) == [x, y];
    assert TextsAttempts([], rules, [text][..0], [[]][..0], line) == [];
  }

  lemma TwoNotes(x: Attempt, y: Attempt)
    requires KeyText(x.key) == KeyText(y.key)
    ensures NoteAll(Tally([], {}), [x, y]).violations == [Violation(x.key.id, x.key.line, x.column)]
  {
    var s := Tally([], {});
    NoteOne(s, [], x);
    NoteOne(s, [x], y);
    assert [] + [x] == [x] && [x] + [y] == [x, y];
  }

  /** For ids that clash there are rules and a text on which one of them is lost. */
  lemma ClashLoses(a: string, b: string, line: nat) returns (rules: seq<KeywordRule>, text: string, after: seq<Violation>)
    requires a != b && Clash(a, b, line)
    ensures Ids(rules) <= {a, b} && IsEvaluation([], rules, [text], line, [], after)
    ensures !ReportsMatches([], rules, [text], line, [], after)
  {
    if Continues(a, b, line) {
      var piece := ContinuedKeys(a, b, line);
      rules, text, after := LoseSecond(a, b, line, piece);
    } else {
      var piece := ContinuedKeys(b, a, line);
      rules, text, after := LoseSecond(b, a, line, piece);
    }
  }

  lemma LoseSecond(a: string, b: string, line: nat, piece: string) returns (rules: seq<KeywordRule>, text: string, after: seq<Violation>)
    requires a != b && SharesKey(KeywordKey(a, line, piece + piece, 0), KeywordKey(b, line, piece, 0), a, b, line)
    ensures Ids(rules) <= {a, b} && IsEvaluation([], rules, [text], line, [], after)
    ensures !ReportsMatches([], rules, [text], line, [], after)
  {
    text := piece + piece;
    assert text[0..|text|] == text && text[0..|piece|] == piece;
    SecondIsLost(a, text, b, piece, text, line);
    rules, after := [OneKeyword(a, text), OneKeyword(b, piece)], [Violation(a, line, 1)];
  }

  /** Whatever rules carry these ids, every evaluation reports exactly the matching ones. */
  ghost predicate AlwaysExact(ids: set<string>, line: nat) {
    forall patterns, rules, texts, before, after ::
      Ids(rules) <= ids && IsEvaluation(patterns, rules, texts, line, before, after) ==>
        ReportsMatches(patterns, rules, texts, line, before, after)
  }

  /** Evaluation of rules with these ids is exact on every text if and only if no two ids clash. */
  lemma AlwaysExactIff(ids: set<string>, line: nat)
    ensures AlwaysExact(ids, line) <==> NoClash(ids, line)
  {
    if NoClash(ids, line) {
      forall patterns, rules, texts, before, after |
        Ids(rules) <= ids && IsEvaluation(patterns, rules, texts, line, before, after)
        ensures ReportsMatches(patterns, rules, texts, line, before, after)
      {
        EvaluationReports(patterns, rules, texts, line, before, after);
      }
    } else {
      var a, b :| a in ids && b in ids && a != b && Clash(a, b, line);
      var rules, text, after := ClashLoses(a, b, line);
    }
  }

  /** The rules "r" with keyword "a|1|kw|a" and "r|1|kw|a" with keyword "a", on line 1. */
  lemma SuppressedRule()
    ensures var rules := [OneKeyword("r", "a|1|kw|a"), OneKeyword("r|1|kw|a", "a")];
      var after := [Violation("r", 1, 1)];
      && IsEvaluation([], rules, ["a|1|kw|a"], 1, [], after)
      && MatchedIn([], rules, ["a|1|kw|a"], "r|1|kw|a") && !Reported(after, "r|1|kw|a", 1)
  {
    SuppressedAs("r", "a", "a|1|kw|a", "r|1|kw|a");
  }

  lemma SuppressedAs(r: string, a: string, text: string, id: string)
    requires r == "r" && a == "a" && text == a + "|1|kw|a" && id == r + "|1|kw|a"
    ensures var rules, after := [OneKeyword(r, text), OneKeyword(id, a)], [Violation(r, 1, 1)];
      && IsEvaluation([], rules, [text], 1, [], after)
      && MatchedIn([], rules, [text], id) && !Reported(after, id, 1)
  {
    assert Decimal(1) == "1";
    var mid := Join("1", Join(KW, "a"));
    SpelledOut(a, mid);
    SpelledOut(r, mid);
    KeysCollide(r, 1, a, a, 0);
    assert text[0..|text|] == text && text[0..1] == a;
    SecondIsLost(r, text, id, a, text, 1);
  }

  lemma SpelledOut(x: string, mid: string)
    requires mid == Join("1", Join(KW, "a"))
    ensures Join(x, mid) == x + "|1|kw|a"
  {
    JoinIs(KW, "a");
    JoinIs("1", "kw|a");
    JoinIs(x, "1|kw|a");
  }
}
