/** Keyword rules on lines cut into overlapping segments (internal/scanner/evaluate.go). */
module LongLineKeywords {
  import opened Aho
  import opened LongLine
  import opened Keywords
  import opened KeywordEval
  import opened KeywordReports

  /** The text of a segment; every segment of a line lies within it. */
  function Slice(line: string, g: Segment): string {
    if g.start <= g.end <= |line| then line[g.start..g.end] else ""
  }

  function Slices(line: string, segs: seq<Segment>): (texts: seq<string>)
    ensures |texts| == |segs| && forall i :: 0 <= i < |segs| ==> texts[i] == Slice(line, segs[i])
  {
    seq(|segs|, i requires 0 <= i < |segs| => Slice(line, segs[i]))
  }

  /** What `evaluateLongLine` hands to `evaluateLine`, in order. */
  function SegmentTexts(line: string, step: nat, overlap: nat): seq<string>
    requires step > 0
  {
    Slices(line, SegmentList(|line|, step, overlap))
  }

  /** `evaluateLongLine`: one dedup set for all segments of the line. */
  method EvaluateLongLine(patterns: seq<string>, rules: seq<KeywordRule>, line: string, lineNum: nat, step: nat,
    overlap: int, idsOf: string -> seq<nat>, before: seq<Violation>) returns (after: seq<Violation>)
    requires step > 0 && "" !in patterns && forall t :: OccurringIds(patterns, t, idsOf(t))
    ensures IsEvaluation(patterns, rules, SegmentTexts(line, step, NonNegative(overlap)), lineNum, before, after)
    ensures NoClash(Ids(rules), lineNum) ==>
      ReportsMatches(patterns, rules, SegmentTexts(line, step, NonNegative(overlap)), lineNum, before, after)
  {
    var segs := Segments(|line|, step, overlap);
    after := EvaluateSegments(patterns, rules, line, lineNum, segs, idsOf, before);
    if NoClash(Ids(rules), lineNum) {
      EvaluationReports(patterns, rules, SegmentTexts(line, step, NonNegative(overlap)), lineNum, before, after);
    }
  }

  method EvaluateSegments(patterns: seq<string>, rules: seq<KeywordRule>, line: string, lineNum: nat, segs: seq<Segment>,
    idsOf: string -> seq<nat>, before: seq<Violation>) returns (after: seq<Violation>)
    requires "" !in patterns && forall t :: OccurringIds(patterns, t, idsOf(t))
    ensures IsEvaluation(patterns, rules, Slices(line, segs), lineNum, before, after)
  {
    var scan := new LineScan(before);
    ghost var hs: seq<seq<Match>> := [];
    for k := 0 to |segs|
      invariant fresh(scan) && Evaluated(scan.State(), before, patterns, rules, lineNum, Slices(line, segs[..k]), hs)
    {
      var text := Slice(line, segs[k]);
      ghost var hits := scan.EvaluateLine(patterns, rules, text, lineNum, idsOf(ToLower(text)));
      OneMoreText(Tally(before, {}), patterns, rules, Slices(line, segs[..k]), hs, text, hits, lineNum);
      SlicesOneMore(line, segs, k);
      hs := hs + [hits];
    }
    after := scan.violations;
    assert segs[..|segs|] == segs;
  }

  ghost predicate Evaluated(s: Tally, before: seq<Violation>, patterns: seq<string>, rules: seq<KeywordRule>, line: nat,
    texts: seq<string>, hs: seq<seq<Match>>)
  {
    HitLists(patterns, texts, hs) && s == NoteAll(Tally(before, {}), TextsAttempts(patterns, rules, texts, hs, line))
  }

  lemma SlicesOneMore(line: string, segs: seq<Segment>, k: nat)
    requires k < |segs|
    ensures Slices(line, segs[..k + 1]) == Slices(line, segs[..k]) + [Slice(line, segs[k])]
  {
  }

  lemma OneMoreText(s: Tally, patterns: seq<string>, rules: seq<KeywordRule>, texts: seq<string>, hs: seq<seq<Match>>,
    text: string, hits: seq<Match>, line: nat)
    requires HitLists(patterns, texts, hs) && HitsOf(patterns, ToLower(text), hits) && AllHits(patterns, ToLower(text), hits)
    ensures HitLists(patterns, texts + [text], hs + [hits])
    ensures NoteAll(s, TextsAttempts(patterns, rules, texts + [text], hs + [hits], line)) ==
      NoteAll(NoteAll(s, TextsAttempts(patterns, rules, texts, hs, line)), LineAttempts(patterns, rules, text, hits, line))
  {
    assert (texts + [text])[..|texts|] == texts && (hs + [hits])[..|hs|] == hs;
    NoteConcat(s, TextsAttempts(patterns, rules, texts, hs, line), LineAttempts(patterns, rules, text, hits, line));
  }

  /** The rule is found when segment g of the line is evaluated. */
  ghost predicate SegmentMatch(patterns: seq<string>, r: KeywordRule, line: string, step: nat, overlap: nat, g: Segment)
    requires step > 0
  {
    && IsSegment(|line|, step, overlap, g) && g.start <= g.end <= |line|
    && RuleMatches(patterns, r, line[g.start..g.end])
  }

  /** Evaluating the segments finds the rules with a match in some segment. */
  lemma MatchedInSegments(patterns: seq<string>, rules: seq<KeywordRule>, line: string, step: nat, overlap: nat, id: string)
    requires step > 0
    ensures MatchedIn(patterns, rules, SegmentTexts(line, step, overlap), id) <==>
      exists r, g :: r in rules && r.id == id && SegmentMatch(patterns, r, line, step, overlap, g)
  {
    var segs, texts := SegmentList(|line|, step, overlap), SegmentTexts(line, step, overlap);
    if r, t :| r in rules && t in texts && r.id == id && RuleMatches(patterns, r, t) {
      var i :| 0 <= i < |texts| && texts[i] == t;
      SegmentListMembers(|line|, step, overlap, segs[i]);
      assert SegmentMatch(patterns, r, line, step, overlap, segs[i]);
    }
    if r, g :| r in rules && r.id == id && SegmentMatch(patterns, r, line, step, overlap, g) {
      SegmentListMembers(|line|, step, overlap, g);
      var i :| 0 <= i < |segs| && segs[i] == g;
      assert texts[i] in texts;
    }
  }

  // ---------- occurrences in a line and in its segments ----------

  lemma SliceOccurs(s: string, lo: nat, hi: nat, p: string, i: int)
    requires lo <= hi <= |s|
    ensures OccursAt(s[lo..hi], p, i) <==> 0 <= i && lo + i + |p| <= hi && OccursAt(s, p, lo + i)
  {
    var t := s[lo..hi];
    if 0 <= i && lo + i + |p| <= hi {
      var u, v := t[i..i + |p|], s[lo + i..lo + i + |p|];
      forall x | 0 <= x < |p| ensures u[x] == v[x] {
        assert u[x] == t[i + x] && v[x] == s[lo + i + x];
      }
      assert u == v;
    }
  }

  lemma HaystackSlice(r: KeywordRule, line: string, lo: nat, hi: nat)
    requires lo <= hi <= |line|
    ensures Haystack(r, line[lo..hi]) == Haystack(r, line)[lo..hi]
  {
    LowerSlice(line, lo, hi);
  }

  /** An occurrence that is enough for an any-logic rule without whole words: of an own keyword
      or, for a case-insensitive rule, of any indexed pattern. */
  ghost predicate Triggers(patterns: seq<string>, r: KeywordRule, line: string, p: string, a: int) {
    OccursAt(Haystack(r, line), p, a) && (p in r.keywords || (!r.caseSensitive && p in patterns))
  }

  lemma MatchIffTriggered(patterns: seq<string>, r: KeywordRule, line: string)
    requires !r.wholeWord && !r.requireAll && r.keywords != []
    ensures RuleMatches(patterns, r, line) <==> exists p, a :: Triggers(patterns, r, line, p, a)
  {
    var hay := Haystack(r, line);
    if p, a :| Triggers(patterns, r, line, p, a) {
      if !r.caseSensitive && p in patterns {
        var k :| 0 <= k < |patterns| && patterns[k] == p;
        assert GoodHit(patterns, false, hay, Match(k, a));
      } else {
        var k :| 0 <= k < |r.keywords| && r.keywords[k] == p;
        assert FirstCounts(false, hay, r.keywords[k]);
        if m :| IsHit(patterns, hay, m) {
          assert GoodHit(patterns, false, hay, m);
        }
      }
    }
    if m :| !r.caseSensitive && GoodHit(patterns, false, hay, m) {
      assert Triggers(patterns, r, line, patterns[m.pattern], m.index);
    }
    if k :| 0 <= k < |r.keywords| && FirstCounts(false, hay, r.keywords[k]) {
      assert Triggers(patterns, r, line, r.keywords[k], FirstFrom(hay, r.keywords[k], 0));
    }
  }

  lemma SliceTriggers(patterns: seq<string>, r: KeywordRule, line: string, lo: nat, hi: nat, p: string, i: int)
    requires lo <= hi <= |line|
    ensures Triggers(patterns, r, line[lo..hi], p, i) <==>
      0 <= i && lo + i + |p| <= hi && Triggers(patterns, r, line, p, lo + i)
  {
    HaystackSlice(r, line, lo, hi);
    SliceOccurs(Haystack(r, line), lo, hi, p, i);
  }

  /** The whole of a..b lies in one segment. */
  ghost predicate InOneSegment(n: nat, step: nat, overlap: nat, a: nat, b: nat)
    requires step > 0
  {
    n <= step || Shown(n, step, overlap, a, b)
  }

  lemma SegmentAround(n: nat, step: nat, overlap: nat, a: nat, b: nat) returns (g: Segment)
    requires step > 0 && a <= b <= n && InOneSegment(n, step, overlap, a, b)
    ensures IsSegment(n, step, overlap, g) && g.start <= a && b <= g.end <= n
  {
    if n <= step {
      g := Segment(0, n);
    } else {
      var s: nat :| InSegment(n, step, overlap, s, a, b);
      g := Segment(s, End(n, step, overlap, s));
    }
  }

  lemma AroundSegment(n: nat, step: nat, overlap: nat, a: nat, b: nat, g: Segment)
    requires step > 0 && IsSegment(n, step, overlap, g) && g.start <= a && b <= g.end
    ensures InOneSegment(n, step, overlap, a, b)
  {
    if n > step {
      assert InSegment(n, step, overlap, g.start, a, b);
    }
  }

  ghost predicate ShownTrigger(patterns: seq<string>, r: KeywordRule, line: string, step: nat, overlap: nat, p: string, a: nat)
    requires step > 0
  {
    Triggers(patterns, r, line, p, a) && InOneSegment(|line|, step, overlap, a, a + |p|)
  }

  lemma MatchShowsTrigger(patterns: seq<string>, r: KeywordRule, line: string, step: nat, overlap: nat, g: Segment)
    returns (p: string, a: nat)
    requires step > 0 && !r.wholeWord && !r.requireAll && SegmentMatch(patterns, r, line, step, overlap, g)
    ensures ShownTrigger(patterns, r, line, step, overlap, p, a)
  {
    var i;
    p, i := MatchTriggered(patterns, r, line[g.start..g.end]);
    SliceTriggers(patterns, r, line, g.start, g.end, p, i);
    a := g.start + i;
    AroundSegment(|line|, step, overlap, a, a + |p|, g);
  }

  lemma MatchTriggered(patterns: seq<string>, r: KeywordRule, line: string) returns (p: string, a: int)
    requires !r.wholeWord && !r.requireAll && RuleMatches(patterns, r, line)
    ensures Triggers(patterns, r, line, p, a)
  {
    MatchIffTriggered(patterns, r, line);
    p, a :| Triggers(patterns, r, line, p, a);
  }

  lemma TriggerShowsMatch(patterns: seq<string>, r: KeywordRule, line: string, step: nat, overlap: nat, p: string, a: nat)
    returns (g: Segment)
    requires step > 0 && !r.wholeWord && !r.requireAll && r.keywords != []
    requires ShownTrigger(patterns, r, line, step, overlap, p, a)
    ensures SegmentMatch(patterns, r, line, step, overlap, g)
  {
    g := SegmentAround(|line|, step, overlap, a, a + |p|);
    SliceTriggers(patterns, r, line, g.start, g.end, p, a - g.start);
    MatchIffTriggered(patterns, r, line[g.start..g.end]);
  }

  /** Without whole words, an any-logic rule is found on a line of any length exactly when one of
      its occurrences lies whole in a segment. */
  lemma SegmentMatchIff(patterns: seq<string>, r: KeywordRule, line: string, step: nat, overlap: nat)
    requires step > 0 && !r.wholeWord && !r.requireAll && r.keywords != []
    ensures (exists g :: SegmentMatch(patterns, r, line, step, overlap, g)) <==>
      exists p, a: nat :: ShownTrigger(patterns, r, line, step, overlap, p, a)
  {
    if g :| SegmentMatch(patterns, r, line, step, overlap, g) {
      var p, a := MatchShowsTrigger(patterns, r, line, step, overlap, g);
    }
    if p, a: nat :| ShownTrigger(patterns, r, line, step, overlap, p, a) {
      var g := TriggerShowsMatch(patterns, r, line, step, overlap, p, a);
    }
  }

  /** In particular cutting the line invents nothing. */
  lemma SegmentMatchIsGenuine(patterns: seq<string>, r: KeywordRule, line: string, step: nat, overlap: nat, g: Segment)
    requires step > 0 && !r.wholeWord && !r.requireAll && SegmentMatch(patterns, r, line, step, overlap, g)
    ensures RuleMatches(patterns, r, line)
  {
    var p, a := MatchShowsTrigger(patterns, r, line, step, overlap, g);
    MatchIffTriggered(patterns, r, line);
  }

  // ---------- whole words ----------

  lemma SliceCounts(ww: bool, s: string, lo: nat, hi: nat, p: string, a: nat)
    requires lo <= a && a + |p| <= hi <= |s| && Counts(ww, s, p, a)
    ensures Counts(ww, s[lo..hi], p, a - lo)
  {
    SliceOccurs(s, lo, hi, p, a - lo);
  }

  /** An indexed keyword that counts in the line is found in whichever segment shows it. */
  lemma LongLineFindsKeyword(patterns: seq<string>, r: KeywordRule, line: string, step: nat, overlap: nat, kw: string, a: nat)
    returns (g: Segment)
    requires step > 0 && !r.caseSensitive && !r.requireAll && kw in r.keywords && kw in patterns
    requires Counts(r.wholeWord, ToLower(line), kw, a) && InOneSegment(|line|, step, overlap, a, a + |kw|)
    ensures SegmentMatch(patterns, r, line, step, overlap, g)
  {
    g := SegmentAround(|line|, step, overlap, a, a + |kw|);
    SliceCounts(r.wholeWord, ToLower(line), g.start, g.end, kw, a);
    LowerSlice(line, g.start, g.end);
    CountedIsFound(patterns, r, line[g.start..g.end], kw, a - g.start);
  }

  lemma CountedIsFound(patterns: seq<string>, r: KeywordRule, line: string, kw: string, a: nat)
    requires !r.caseSensitive && !r.requireAll && kw in r.keywords && kw in patterns
    requires Counts(r.wholeWord, ToLower(line), kw, a)
    ensures RuleMatches(patterns, r, line)
  {
    var k :| 0 <= k < |patterns| && patterns[k] == kw;
    assert GoodHit(patterns, r.wholeWord, ToLower(line), Match(k, a));
  }

  /** The occurrence at a counts when the edges of lo..hi are taken for the ends of the text. */
  predicate CountsWithin(ww: bool, s: string, lo: nat, hi: nat, p: string, a: nat)
    requires lo <= hi <= |s|
  {
    && lo <= a && a + |p| <= hi && OccursAt(s, p, a)
    && (!ww || ((a == lo || !IsWordChar(s[a - 1])) && (a + |p| == hi || !IsWordChar(s[a + |p|]))))
  }

  lemma SliceCountsIff(ww: bool, s: string, lo: nat, hi: nat, p: string, i: nat)
    requires lo <= hi <= |s|
    ensures Counts(ww, s[lo..hi], p, i) <==> CountsWithin(ww, s, lo, hi, p, lo + i)
  {
    SliceOccurs(s, lo, hi, p, i);
    var t := s[lo..hi];
    if OccursAt(t, p, i) {
      assert i > 0 ==> t[i - 1] == s[lo + i - 1];
      assert i + |p| < |t| ==> t[i + |p|] == s[lo + i + |p|];
    }
  }

  /** Pattern k occurs at a within segment g, and counts there. */
  ghost predicate SegmentCount(patterns: seq<string>, r: KeywordRule, line: string, step: nat, overlap: nat, g: Segment, k: nat, a: nat)
    requires step > 0
  {
    && IsSegment(|line|, step, overlap, g) && g.start <= g.end <= |line| && k < |patterns|
    && CountsWithin(r.wholeWord, ToLower(line), g.start, g.end, patterns[k], a)
  }

  /** An any-logic rule whose keywords are indexed, as the loader builds them. */
  ghost predicate Indexed(patterns: seq<string>, r: KeywordRule) {
    && !r.caseSensitive && !r.requireAll && r.keywords != []
    && forall k :: 0 <= k < |r.keywords| ==> r.keywords[k] in patterns
  }

  lemma SegmentMatchCounts(patterns: seq<string>, r: KeywordRule, line: string, step: nat, overlap: nat, g: Segment) returns (k: nat, a: nat)
    requires step > 0 && Indexed(patterns, r) && SegmentMatch(patterns, r, line, step, overlap, g)
    ensures SegmentCount(patterns, r, line, step, overlap, g, k, a)
  {
    MatchIsIndexed(patterns, r, line[g.start..g.end]);
    LowerSlice(line, g.start, g.end);
    var m :| GoodHit(patterns, r.wholeWord, ToLower(line)[g.start..g.end], m);
    k, a := m.pattern, g.start + m.index;
    SliceCountsIff(r.wholeWord, ToLower(line), g.start, g.end, patterns[k], m.index);
  }

  lemma SegmentCountMatches(patterns: seq<string>, r: KeywordRule, line: string, step: nat, overlap: nat, g: Segment, k: nat, a: nat)
    requires step > 0 && Indexed(patterns, r) && SegmentCount(patterns, r, line, step, overlap, g, k, a)
    ensures SegmentMatch(patterns, r, line, step, overlap, g)
  {
    MatchIsIndexed(patterns, r, line[g.start..g.end]);
    LowerSlice(line, g.start, g.end);
    SliceCountsIff(r.wholeWord, ToLower(line), g.start, g.end, patterns[k], a - g.start);
    assert GoodHit(patterns, r.wholeWord, ToLower(line)[g.start..g.end], Match(k, a - g.start));
  }

  /** The occurrence touches an edge of lo..hi inside the text, with a word character across it. */
  predicate AtTornEdge(s: string, lo: nat, hi: nat, p: string, a: nat)
    requires lo <= a && a + |p| <= hi <= |s|
  {
    (a == lo && lo > 0 && IsWordChar(s[lo - 1])) || (a + |p| == hi && hi < |s| && IsWordChar(s[hi]))
  }

  /** What counts between the edges counts in the text, except at a torn edge. */
  lemma CountsUnlessTorn(ww: bool, s: string, lo: nat, hi: nat, p: string, a: nat)
    requires lo <= hi <= |s| && CountsWithin(ww, s, lo, hi, p, a)
    ensures Counts(ww, s, p, a) <==> !(ww && AtTornEdge(s, lo, hi, p, a))
  {
  }

  /** A whole-word rule, and an occurrence counting in segment g only because a cut tore its word. */
  ghost predicate Torn(patterns: seq<string>, r: KeywordRule, line: string, step: nat, overlap: nat, g: Segment, k: nat, a: nat)
    requires step > 0
  {
    && r.wholeWord && SegmentCount(patterns, r, line, step, overlap, g, k, a)
    && AtTornEdge(ToLower(line), g.start, g.end, patterns[k], a)
  }

  /** Cutting reports such a rule on a line it does not match exactly when nothing counts in the
      line and some occurrence lies at a cut with a word character across it. */
  lemma InventedIff(patterns: seq<string>, r: KeywordRule, line: string, step: nat, overlap: nat)
    requires step > 0 && Indexed(patterns, r)
    ensures (!RuleMatches(patterns, r, line) && exists g :: SegmentMatch(patterns, r, line, step, overlap, g)) <==>
      (forall m :: !GoodHit(patterns, r.wholeWord, ToLower(line), m)) &&
      exists g, k, a :: Torn(patterns, r, line, step, overlap, g, k, a)
  {
    MatchIsIndexed(patterns, r, line);
    if g :| !RuleMatches(patterns, r, line) && SegmentMatch(patterns, r, line, step, overlap, g) {
      var k, a := SegmentMatchCounts(patterns, r, line, step, overlap, g);
      assert !GoodHit(patterns, r.wholeWord, ToLower(line), Match(k, a));
      CountsUnlessTorn(r.wholeWord, ToLower(line), g.start, g.end, patterns[k], a);
      assert Torn(patterns, r, line, step, overlap, g, k, a);
    }
    if g, k, a :| Torn(patterns, r, line, step, overlap, g, k, a) {
      SegmentCountMatches(patterns, r, line, step, overlap, g, k, a);
    }
  }

  // ---------- when no line can make cutting invent a match ----------

  /** What an any-logic rule looks for: its keywords and, without case, every indexed pattern; a
      lower-cased line can contain lower-case ones only. */
  ghost predicate Candidate(patterns: seq<string>, r: KeywordRule, p: string) {
    && (p in r.keywords || (!r.caseSensitive && p in patterns))
    && (r.caseSensitive || ToLower(p) == p)
  }

  /** An any-logic rule with keywords: case-sensitive, or indexed with all of them, or without any index. */
  ghost predicate Searched(patterns: seq<string>, r: KeywordRule) {
    && !r.requireAll && r.keywords != []
    && (r.caseSensitive || patterns == [] || forall k :: 0 <= k < |r.keywords| ==> r.keywords[k] in patterns)
  }

  lemma MatchNeedsCount(patterns: seq<string>, r: KeywordRule, line: string) returns (p: string, i: int)
    requires Searched(patterns, r) && RuleMatches(patterns, r, line)
    ensures Candidate(patterns, r, p) && Counts(r.wholeWord, Haystack(r, line), p, i)
  {
    var hay := Haystack(r, line);
    if m :| !r.caseSensitive && GoodHit(patterns, r.wholeWord, hay, m) {
      p, i := patterns[m.pattern], m.index;
    } else {
      var k :| 0 <= k < |r.keywords| && FirstCounts(r.wholeWord, hay, r.keywords[k]);
      p, i := r.keywords[k], FirstFrom(hay, r.keywords[k], 0);
    }
    if !r.caseSensitive {
      OccursLower(line, p, i);
    }
  }

  lemma CountAtStartMatches(patterns: seq<string>, r: KeywordRule, line: string, p: string)
    requires Searched(patterns, r) && Candidate(patterns, r, p) && Counts(r.wholeWord, Haystack(r, line), p, 0)
    ensures RuleMatches(patterns, r, line)
  {
    var hay := Haystack(r, line);
    if !r.caseSensitive && patterns != [] {
      var k :| 0 <= k < |patterns| && patterns[k] == p;
      assert GoodHit(patterns, r.wholeWord, hay, Match(k, 0));
    } else {
      var k :| 0 <= k < |r.keywords| && r.keywords[k] == p;
      assert FirstFrom(hay, p, 0) == 0 && FirstCounts(r.wholeWord, hay, r.keywords[k]);
    }
  }

  function Fill(c: char, n: nat): (s: string)
    ensures |s| == n && forall i :: 0 <= i < n ==> s[i] == c
  {
    seq(n, _ => c)
  }

  /** p between two long runs of letters, glued to the first and apart from the second. */
  function Glued(p: string, before: nat, after: nat): (s: string)
    ensures |s| == before + |p| + 1 + after
    ensures forall i :: 0 <= i < before ==> s[i] == 'a'
    ensures forall i :: 0 <= i < |p| ==> s[before + i] == p[i]
    ensures s[before + |p|] == ' '
    ensures forall i :: before + |p| < i < |s| ==> s[i] == 'a'
  {
    Fill('a', before) + p + " " + Fill('a', after)
  }

  /** In such a line nothing that is at least as long as p and shorter than the runs counts. */
  lemma GluedNeverCounts(p: string, before: nat, after: nat, q: string, i: int)
    requires |p| <= |q| && |q| < before && |q| < after
    ensures !Counts(true, Glued(p, before, after), q, i)
  {
  }

  lemma GluedLower(p: string, before: nat, after: nat)
    requires ToLower(p) == p
    ensures ToLower(Glued(p, before, after)) == Glued(p, before, after)
  {
    var line := Glued(p, before, after);
    forall i | 0 <= i < |line| ensures ToLower(line)[i] == line[i] {
      LowerAt(line, i);
      if before <= i < before + |p| {
        LowerAt(p, i - before);
        assert line[before + (i - before)] == p[i - before];
      }
    }
  }

  /** The segment that starts with p. */
  lemma GluedSegment(p: string, before: nat, after: nat, step: nat, overlap: nat)
    requires step > 0 && OnGrid(step, before) && step <= before && |p| <= step + overlap <= after
    ensures var line, g := Glued(p, before, after), Segment(before, before + step + overlap);
      && IsSegment(|line|, step, overlap, g) && g.end <= |line|
      && Counts(true, line[g.start..g.end], p, 0)
  {
    var line := Glued(p, before, after);
    var text := line[before..before + step + overlap];
    assert text[0..|p|] == p by {
      forall x | 0 <= x < |p| ensures text[0..|p|][x] == p[x] {
        assert text[x] == line[before + x];
      }
    }
    assert |p| < |text| ==> text[|p|] == line[before + |p|];
  }

  function TotalLength(ss: seq<string>): nat {
    if ss == [] then 0 else |ss[0]| + TotalLength(ss[1..])
  }

  lemma {:induction false} WithinTotal(ss: seq<string>, p: string)
    requires p in ss
    ensures |p| <= TotalLength(ss)
  {
    if p != ss[0] {
      WithinTotal(ss[1..], p);
    }
  }

  lemma CandidateLength(patterns: seq<string>, r: KeywordRule, p: string)
    requires Candidate(patterns, r, p)
    ensures |p| <= TotalLength(patterns) + TotalLength(r.keywords)
  {
    WithinTotal(if p in patterns then patterns else r.keywords, p);
  }

  lemma {:induction false} ShortestCandidate(patterns: seq<string>, r: KeywordRule, p: string) returns (s: string)
    requires Candidate(patterns, r, p)
    ensures Candidate(patterns, r, s) && |s| <= |p| && forall q :: Candidate(patterns, r, q) ==> |s| <= |q|
    decreases |p|
  {
    if q :| Candidate(patterns, r, q) && |q| < |p| {
      s := ShortestCandidate(patterns, r, q);
    } else {
      s := p;
    }
  }

  /** A line in which nothing counts, with a cut that turns p into a whole word. */
  lemma CutMakesWord(patterns: seq<string>, r: KeywordRule, step: nat, overlap: nat, p: string) returns (line: string, g: Segment)
    requires step > 0 && Searched(patterns, r) && r.wholeWord
    requires Candidate(patterns, r, p) && |p| <= step + overlap
    ensures SegmentMatch(patterns, r, line, step, overlap, g) && !RuleMatches(patterns, r, line)
  {
    var s := ShortestCandidate(patterns, r, p);
    var m := TotalLength(patterns) + TotalLength(r.keywords);
    var before, after := Base(step, m) + step, m + 1 + step + overlap;
    assert OnGrid(step, before);
    line, g := Glued(s, before, after), Segment(before, before + step + overlap);
    GluedSegment(s, before, after, step, overlap);
    assert Haystack(r, line) == line by {
      if !r.caseSensitive {
        GluedLower(s, before, after);
      }
    }
    HaystackSlice(r, line, g.start, g.end);
    CountAtStartMatches(patterns, r, line[g.start..g.end], s);
    if RuleMatches(patterns, r, line) {
      var q, i := MatchNeedsCount(patterns, r, line);
      CandidateLength(patterns, r, q);
      GluedNeverCounts(s, before, after, q, i);
    }
  }

  /** On no line does a segment match what the line does not. */
  ghost predicate NeverInvents(patterns: seq<string>, r: KeywordRule, step: nat, overlap: nat)
    requires step > 0
  {
    forall line, g :: SegmentMatch(patterns, r, line, step, overlap, g) ==> RuleMatches(patterns, r, line)
  }

  /** Whatever else is indexed, cutting never reports such a rule on a line it does not match if and
      only if whole words are not required or all it looks for is longer than a segment. */
  lemma NeverInventsIff(patterns: seq<string>, r: KeywordRule, step: nat, overlap: nat)
    requires step > 0 && Searched(patterns, r)
    ensures NeverInvents(patterns, r, step, overlap) <==>
      !r.wholeWord || forall p :: Candidate(patterns, r, p) ==> |p| > step + overlap
  {
    if !r.wholeWord {
      forall line, g | SegmentMatch(patterns, r, line, step, overlap, g) ensures RuleMatches(patterns, r, line) {
        SegmentMatchIsGenuine(patterns, r, line, step, overlap, g);
      }
    } else if p :| Candidate(patterns, r, p) && |p| <= step + overlap {
      var line, g := CutMakesWord(patterns, r, step, overlap, p);
    } else {
      forall line, g ensures !SegmentMatch(patterns, r, line, step, overlap, g) {
        LongCandidatesNeverShown(patterns, r, line, step, overlap, g);
      }
    }
  }

  lemma LongCandidatesNeverShown(patterns: seq<string>, r: KeywordRule, line: string, step: nat, overlap: nat, g: Segment)
    requires step > 0 && Searched(patterns, r) && forall p :: Candidate(patterns, r, p) ==> |p| > step + overlap
    ensures !SegmentMatch(patterns, r, line, step, overlap, g)
  {
    if SegmentMatch(patterns, r, line, step, overlap, g) {
      var p, i := MatchNeedsCount(patterns, r, line[g.start..g.end]);
    }
  }

  /** Cut by one with overlap one, "cat" is also read as "at", a whole word then. It is reported even
      for a rule about "zzz", when another rule put "at" into the index. */
  lemma CatReadAsAt()
    ensures var r := KeywordRule("r", ["zzz"], false, true, false);
      SegmentMatch(["zzz", "at"], r, "cat", 1, 1, Segment(1, 3)) && !RuleMatches(["zzz", "at"], r, "cat")
  {
    CatAs(KeywordRule("r", ["zzz"], false, true, false), "at", "cat", ["zzz", "at"]);
  }

  lemma CatAs(r: KeywordRule, at: string, cat: string, patterns: seq<string>)
    requires r.wholeWord && !r.caseSensitive && r.keywords == ["zzz"] && !r.requireAll
    requires at == "at" && cat == "cat" && patterns == ["zzz", at]
    ensures SegmentMatch(patterns, r, cat, 1, 1, Segment(1, 3)) && !RuleMatches(patterns, r, cat)
  {
    assert r.keywords[0] in patterns && patterns[1] == at;
    LowerFixed(at);
    LowerFixed(cat);
    assert cat[1..3] == at && at[0..2] == at;
    assert OnGrid(1, 1) by { assert OnGrid(1, 0); }
    CountAtStartMatches(patterns, r, cat[1..3], at);
    assert cat[0] == 'c' && cat[1] == 'a' && cat[2] == 't';
    if RuleMatches(patterns, r, cat) {
      var p, i := MatchNeedsCount(patterns, r, cat);
      NothingCountsInCat(cat, p, i);
    }
  }

  lemma NothingCountsInCat(cat: string, p: string, i: int)
    requires cat == "cat" && (p == "at" || p == "zzz")
    ensures !Counts(true, cat, p, i)
  {
    if OccursAt(cat, p, i) {
      assert cat[i] == cat[i..i + |p|][0];
    }
  }

  lemma LowerFixed(s: string)
    requires forall i :: 0 <= i < |s| ==> LowerChar(s[i]) == s[i]
    ensures ToLower(s) == s
  {
    forall i | 0 <= i < |s| ensures ToLower(s)[i] == s[i] {
      LowerAt(s, i);
    }
  }
}
