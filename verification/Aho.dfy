/** Substring search and the keyword index (internal/scanner/aho.go, util.go). */
module Aho {
  import opened Ordering

  predicate OccursAt(text: string, pat: string, i: int) {
    0 <= i && i + |pat| <= |text| && text[i..i + |pat|] == pat
  }

  /** `strings.Index` of pat in text[from..], as a position in text. */
  function FirstFrom(text: string, pat: string, from: nat): (r: int)
    requires from <= |text|
    ensures r >= 0 ==> from <= r && OccursAt(text, pat, r)
    ensures forall j :: from <= j && (r < 0 || j < r) ==> !OccursAt(text, pat, j)
    decreases |text| - from
  {
    if OccursAt(text, pat, from) then from
    else if from == |text| then -1
    else FirstFrom(text, pat, from + 1)
  }

  datatype Match = Match(pattern: nat, index: nat)

  predicate ByIndex(x: Match, y: Match) {
    x.index <= y.index
  }

  /** Non-empty patterns, repeats dropped, first occurrence order. */
  method NewAho(patterns: seq<string>) returns (uniq: seq<string>)
    ensures NoDup(uniq) && forall p :: p in uniq <==> p in patterns && p != ""
  {
    var seen: set<string> := {};
    uniq := [];
    for i := 0 to |patterns|
      invariant NoDup(uniq) && (forall p :: p in uniq <==> p in patterns[..i] && p != "")
      invariant forall p :: p in seen <==> p in uniq
    {
      var p := patterns[i];
      if p == "" || p in seen {
        continue;
      }
      seen := seen + {p};
      uniq := uniq + [p];
    }
  }

  ghost predicate IsHit(patterns: seq<string>, hay: string, m: Match) {
    m.pattern < |patterns| && OccursAt(hay, patterns[m.pattern], m.index)
  }

  /** What the automaton library reports: the patterns that occur, each once, in any order. */
  ghost predicate OccurringIds(patterns: seq<string>, hay: string, ids: seq<nat>) {
    NoDup(ids) && forall k: nat :: k in ids <==> k < |patterns| && exists i :: OccursAt(hay, patterns[k], i)
  }

  /** All occurrences of one pattern, overlapping ones included. */
  method Occurrences(hay: string, pat: string, pid: nat) returns (found: seq<Match>)
    requires pat != ""
    ensures NoDup(found) && forall m :: m in found <==> m.pattern == pid && OccursAt(hay, pat, m.index)
  {
    found := [];
    var pos := 0;
    while true
      invariant pos <= |hay| && NoDup(found)
      invariant forall m :: m in found <==> m.pattern == pid && OccursAt(hay, pat, m.index) && m.index < pos
      decreases |hay| - pos
    {
      var start := FirstFrom(hay, pat, pos);
      if start < 0 {
        return;
      }
      assert forall m: Match :: OccursAt(hay, pat, m.index) && pos <= m.index < start + 1 ==> m.index == start;
      found := found + [Match(pid, start)];
      pos := start + 1;
    }
  }

  /** `FindAll`: exactly the overlapping occurrences of all patterns, by index. */
  method FindAll(patterns: seq<string>, hay: string, ids: seq<nat>) returns (matches: seq<Match>)
    requires "" !in patterns && OccurringIds(patterns, hay, ids)
    ensures NoDup(matches) && SortedBy(matches, ByIndex)
    ensures forall m :: m in matches <==> IsHit(patterns, hay, m)
  {
    var all: seq<Match> := [];
    for k := 0 to |ids|
      invariant NoDup(all)
      invariant forall m :: m in all <==> IsHit(patterns, hay, m) && m.pattern in ids[..k]
    {
      var pid := ids[k];
      assert pid in ids;
      assert patterns[pid] in patterns;
      var found := Occurrences(hay, patterns[pid], pid);
      assert forall m :: m in all ==> m.pattern != pid;
      all := all + found;
    }
    assert TotalPreorder(ByIndex);
    matches := SortBy(all, ByIndex);
    SortedHits(patterns, hay, ids, all, matches);
  }

  lemma SortedHits(patterns: seq<string>, hay: string, ids: seq<nat>, all: seq<Match>, matches: seq<Match>)
    requires OccurringIds(patterns, hay, ids)
    requires NoDup(all) && forall m :: m in all <==> IsHit(patterns, hay, m) && m.pattern in ids
    requires multiset(matches) == multiset(all)
    ensures NoDup(matches) && forall m :: m in matches <==> IsHit(patterns, hay, m)
  {
    PermutationNoDup(all, matches);
    forall m ensures m in matches <==> IsHit(patterns, hay, m) {
      assert m in matches <==> m in multiset(matches);
      assert m in all <==> m in multiset(all);
    }
  }
}
