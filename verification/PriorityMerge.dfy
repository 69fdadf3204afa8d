/** First-wins merging in priority order (internal/rules/merge.go). */
module PriorityMerge {
  import opened Ordering
  import opened RulePacks
  import opened ExtendsOrder
  import opened Merge

  /** Higher priority first, then by name. */
  predicate Precedes(p: RulePack, q: RulePack) {
    Priority(p) > Priority(q) || (Priority(p) == Priority(q) && Leq(p.name, q.name))
  }

  lemma PrecedesIsOrder()
    ensures TotalPreorder(Precedes)
  {
    forall p, q ensures Precedes(p, q) || Precedes(q, p) { LeqTotal(p.name, q.name); }
    forall p, q, r | Precedes(p, q) && Precedes(q, r) ensures Precedes(p, r) {
      if Priority(p) == Priority(r) { LeqTransitive(p.name, q.name, r.name); }
    }
  }

  /** Strictly increasing positions below n. */
  ghost predicate Positions(ix: seq<nat>, n: nat) {
    && (forall i, j :: 0 <= i < j < |ix| ==> ix[i] < ix[j])
    && (forall i :: 0 <= i < |ix| ==> ix[i] < n)
  }

  /** Positions of the first definition of each id, in definition order. */
  ghost function FirstIndices(defs: seq<Rule>): (ix: seq<nat>)
    ensures Positions(ix, |defs|)
    ensures forall i :: 0 <= i < |defs| ==> (i in ix <==> IsFirst(defs, i))
  {
    if defs == [] then []
    else
      var n := |defs| - 1;
      var ix := FirstIndices(defs[..n]);
      assert forall i :: 0 <= i < n ==> (IsFirst(defs, i) <==> IsFirst(defs[..n], i));
      if IsFirst(defs, n) then ix + [n] else ix
  }

  /** Those positions whose rule is still active once overridden. */
  ghost function ActiveIndices(defs: seq<Rule>, ovs: seq<Override>, ix: seq<nat>): (r: seq<nat>)
    requires Positions(ix, |defs|)
    ensures Positions(r, |defs|)
    ensures forall i :: 0 <= i < |defs| ==> (i in r <==> i in ix && Active(Final(defs[i], ovs)))
  {
    if ix == [] then []
    else
      var n := |ix| - 1;
      assert ix == ix[..n] + [ix[n]];
      var r := ActiveIndices(defs, ovs, ix[..n]);
      assert forall k :: 0 <= k < |r| ==> r[k] in r && r[k] in ix[..n];
      if Active(Final(defs[ix[n]], ovs)) then r + [ix[n]] else r
  }

  ghost function Pick(defs: seq<Rule>, ix: seq<nat>): seq<Rule>
    requires Positions(ix, |defs|)
  {
    seq(|ix|, k requires 0 <= k < |ix| => defs[ix[k]])
  }

  ghost function Finals(rs: seq<Rule>, ovs: seq<Override>): seq<Rule> {
    seq(|rs|, k requires 0 <= k < |rs| => Final(rs[k], ovs))
  }

  /** Processing order when the packs are already in priority order. */
  ghost function PriorityOrder(sorted: seq<RulePack>): (order: seq<string>)
    ensures NoDup(order) && Elems(order) == ByName(sorted).Keys
    ensures forall n :: n in order ==> n in ByName(sorted)
  {
    SortedNamesCover(sorted, Names(sorted));
    OrderComplete(ExtendsGraph(ByName(sorted)), Names(sorted));
    var order := Processing(sorted, Names(sorted));
    assert forall n :: n in order ==> n in Elems(order);
    order
  }

  /** The first active definition of every id, in definition order, overridden. */
  ghost function Kept(defs: seq<Rule>, ovs: seq<Override>): seq<Rule> {
    Finals(Pick(defs, ActiveIndices(defs, ovs, FirstIndices(defs))), ovs)
  }

  ghost predicate SortedPacks(packs: seq<RulePack>, sorted: seq<RulePack>) {
    multiset(sorted) == multiset(packs) && SortedBy(sorted, Precedes)
  }

  ghost predicate FirstWins(sorted: seq<RulePack>, out: seq<Rule>) {
    var byName, order := ByName(sorted), PriorityOrder(sorted);
    out == Kept(Definitions(byName, order), AllOverrides(byName, order))
  }

  /** `sort.Slice` is not stable, so any priority-sorted arrangement may be used. */
  ghost predicate IsPriorityMerge(packs: seq<RulePack>, out: seq<Rule>) {
    exists sorted :: SortedPacks(packs, sorted) && FirstWins(sorted, out)
  }

  method MergePacksPriorityOrder(packs: seq<RulePack>) returns (out: seq<Rule>)
    ensures IsPriorityMerge(packs, out)
  {
    PrecedesIsOrder();
    var sorted := SortBy(packs, Precedes);
    assert SortedPacks(packs, sorted);
    out := MergeSorted(sorted);
  }

  method MergeSorted(sorted: seq<RulePack>) returns (out: seq<Rule>)
    ensures FirstWins(sorted, out)
  {
    var byName, roots := IndexPacks(sorted);
    SortedNamesCover(sorted, roots);
    var walker := new Walker(ExtendsGraph(byName));
    forall n | n in roots ensures n in walker.g { assert n in Elems(roots); }
    walker.VisitRoots(roots);
    var order := walker.order;
    assert order == PriorityOrder(sorted);
    out := KeepFirst(byName, order);
    ghost var defs, ovs := Definitions(byName, order), AllOverrides(byName, order);
    FirstsExact(defs);
    out := PatchInPackOrder(byName, order, out);
    out := DropDisabled(defs, ovs, FirstIndices(defs), out);
  }

  method KeepFirst(byName: map<string, RulePack>, order: seq<string>) returns (out: seq<Rule>)
    requires forall n :: n in order ==> n in byName
    ensures out == Firsts(Definitions(byName, order))
  {
    out := [];
    var seen: set<string> := {};
    for i := 0 to |order|
      invariant Collected(out, seen, Definitions(byName, order[..i]))
    {
      out, seen := KeepFirstOfPack(byName[order[i]].rules, out, seen, Definitions(byName, order[..i]));
      assert order[..i + 1][..i] == order[..i];
    }
    assert order[..|order|] == order;
  }

  method KeepFirstOfPack(rules: seq<Rule>, kept: seq<Rule>, ids: set<string>, ghost before: seq<Rule>)
    returns (out: seq<Rule>, seen: set<string>)
    requires Collected(kept, ids, before)
    ensures Collected(out, seen, before + rules)
  {
    out, seen := kept, ids;
    assert before + rules[..0] == before;
    for j := 0 to |rules|
      invariant Collected(out, seen, before + rules[..j])
    {
      var r := rules[j];
      CollectNext(out, seen, before, rules, j);
      if r.id in seen {
        continue;
      }
      seen := seen + {r.id};
      out := out + [r];
    }
    assert rules[..|rules|] == rules;
  }

  ghost predicate Collected(out: seq<Rule>, seen: set<string>, defs: seq<Rule>) {
    out == Firsts(defs) && seen == IdSet(defs)
  }

  lemma CollectNext(out: seq<Rule>, seen: set<string>, before: seq<Rule>, rules: seq<Rule>, j: nat)
    requires j < |rules| && Collected(out, seen, before + rules[..j])
    ensures var r, next := rules[j], before + rules[..j + 1];
      if r.id in seen then Collected(out, seen, next) else Collected(out + [r], seen + {r.id}, next)
  {
    var defs, r := before + rules[..j], rules[j];
    assert before + rules[..j + 1] == defs + [r];
    OneMoreDefinition(defs, r);
    assert r.id in seen ==> seen + {r.id} == seen;
  }

  ghost function IdSet(defs: seq<Rule>): set<string> {
    if defs == [] then {} else IdSet(defs[..|defs| - 1]) + {defs[|defs| - 1].id}
  }

  lemma {:induction false} IdSetMembers(defs: seq<Rule>, id: string)
    ensures id in IdSet(defs) <==> exists i :: 0 <= i < |defs| && defs[i].id == id
  {
    if defs != [] {
      var n := |defs| - 1;
      IdSetMembers(defs[..n], id);
      if id in IdSet(defs[..n]) {
        var i :| 0 <= i < n && defs[..n][i].id == id;
        assert defs[i].id == id;
      }
    }
  }

  /** What skipping seen ids accumulates. */
  ghost function Firsts(defs: seq<Rule>): seq<Rule> {
    if defs == [] then []
    else
      var n := |defs| - 1;
      if defs[n].id in IdSet(defs[..n]) then Firsts(defs[..n]) else Firsts(defs[..n]) + [defs[n]]
  }

  lemma PickFromPrefix(defs: seq<Rule>, n: nat, ix: seq<nat>)
    requires n <= |defs| && Positions(ix, n)
    ensures Positions(ix, |defs|) && Pick(defs, ix) == Pick(defs[..n], ix)
  {
  }

  lemma PickAppend(defs: seq<Rule>, ix: seq<nat>, n: nat)
    requires n < |defs| && Positions(ix + [n], |defs|) && Positions(ix, |defs|)
    ensures Pick(defs, ix + [n]) == Pick(defs, ix) + [defs[n]]
  {
  }

  lemma LastIsFirstIff(defs: seq<Rule>)
    requires defs != []
    ensures var n := |defs| - 1; IsFirst(defs, n) <==> defs[n].id !in IdSet(defs[..n])
  {
    IdSetMembers(defs[..|defs| - 1], defs[|defs| - 1].id);
  }

  lemma {:induction false} FirstsExact(defs: seq<Rule>)
    ensures Firsts(defs) == Pick(defs, FirstIndices(defs))
  {
    if defs != [] {
      var n := |defs| - 1;
      FirstsExact(defs[..n]);
      LastIsFirstIff(defs);
      PickStep(defs, n, FirstIndices(defs[..n]), IsFirst(defs, n));
    }
  }

  lemma PickStep(defs: seq<Rule>, n: nat, ix: seq<nat>, first: bool)
    requires n < |defs| && Positions(ix, n)
    ensures var ix' := if first then ix + [n] else ix;
      Positions(ix', |defs|) && Pick(defs, ix') == Pick(defs[..n], ix) + if first then [defs[n]] else []
  {
    PickFromPrefix(defs, n, ix);
    if first {
      PickAppend(defs, ix, n);
    }
  }

  lemma OneMoreDefinition(defs: seq<Rule>, r: Rule)
    ensures IdSet(defs + [r]) == IdSet(defs) + {r.id}
    ensures Firsts(defs + [r]) == if r.id in IdSet(defs) then Firsts(defs) else Firsts(defs) + [r]
  {
    assert (defs + [r])[..|defs|] == defs;
  }

  method PatchInPackOrder(byName: map<string, RulePack>, order: seq<string>, rs: seq<Rule>) returns (out: seq<Rule>)
    requires forall n :: n in order ==> n in byName
    ensures out == Finals(rs, AllOverrides(byName, order))
  {
    out := rs;
    assert out == Finals(rs, []);
    for i := 0 to |order|
      invariant out == Finals(rs, AllOverrides(byName, order[..i]))
    {
      out := PatchOnePack(out, byName[order[i]].overrides, rs, AllOverrides(byName, order[..i]));
      assert order[..i + 1][..i] == order[..i];
    }
    assert order[..|order|] == order;
  }

  method PatchOnePack(rs: seq<Rule>, overrides: seq<Override>, ghost base: seq<Rule>, ghost before: seq<Override>)
    returns (out: seq<Rule>)
    requires rs == Finals(base, before)
    ensures out == Finals(base, before + overrides)
  {
    out := rs;
    for i := 0 to |out|
      invariant |out| == |base|
      invariant forall k :: 0 <= k < i ==> out[k] == Final(base[k], before + overrides)
      invariant forall k :: i <= k < |out| ==> out[k] == Final(base[k], before)
    {
      var r := PatchRule(out[i], overrides, base[i], before);
      out := out[i := r];
    }
  }

  /** The innermost loop: one rule against one pack's overrides. */
  method PatchRule(rule: Rule, overrides: seq<Override>, ghost base: Rule, ghost before: seq<Override>) returns (r: Rule)
    requires rule == Final(base, before)
    ensures r == Final(base, before + overrides)
  {
    r := rule;
    ghost var ovs := before;
    for j := 0 to |overrides|
      invariant ovs == before + overrides[..j] && r == Final(base, ovs)
    {
      var ov := overrides[j];
      FinalExtends(base, ovs, ov);
      ovs := ovs + [ov];
      if r.id != ov.ruleId {
        continue;
      }
      if ov.severity != "" {
        r := r.(severity := ov.severity);
      }
      if ov.enabled.Some? {
        r := r.(enabled := ov.enabled);
      }
    }
    assert overrides[..|overrides|] == overrides;
  }

  method DropDisabled(ghost defs: seq<Rule>, ghost ovs: seq<Override>, ghost ix: seq<nat>, rs: seq<Rule>)
    returns (filtered: seq<Rule>)
    requires Positions(ix, |defs|)
    requires rs == Finals(Pick(defs, ix), ovs)
    ensures filtered == Finals(Pick(defs, ActiveIndices(defs, ovs, ix)), ovs)
  {
    filtered := [];
    for k := 0 to |rs|
      invariant filtered == Finals(Pick(defs, ActiveIndices(defs, ovs, ix[..k])), ovs)
    {
      KeepOrDrop(defs, ovs, ix, k);
      if Active(rs[k]) {
        filtered := filtered + [rs[k]];
      }
    }
    assert ix[..|ix|] == ix;
  }

  lemma KeepOrDrop(defs: seq<Rule>, ovs: seq<Override>, ix: seq<nat>, k: nat)
    requires Positions(ix, |defs|) && k < |ix|
    ensures var r := Final(defs[ix[k]], ovs);
      var kept := Finals(Pick(defs, ActiveIndices(defs, ovs, ix[..k])), ovs);
      Finals(Pick(defs, ActiveIndices(defs, ovs, ix[..k + 1])), ovs) == if Active(r) then kept + [r] else kept
  {
    assert ix[..k + 1][..k] == ix[..k];
    var a := ActiveIndices(defs, ovs, ix[..k]);
    if Active(Final(defs[ix[k]], ovs)) {
      assert ActiveIndices(defs, ovs, ix[..k + 1]) == a + [ix[k]];
      PickAppend(defs, a, ix[k]);
    }
  }

  // ---------- what the priority merge guarantees ----------

  lemma SortedPacksUnique(a: seq<RulePack>, b: seq<RulePack>, sa: seq<RulePack>, sb: seq<RulePack>)
    requires multiset(a) == multiset(b) && NoDup(Names(a))
    requires SortedPacks(a, sa) && SortedPacks(b, sb)
    ensures sa == sb
  {
    forall x, y | x in sa && y in sa && Precedes(x, y) && Precedes(y, x) ensures x == y {
      LeqAntisymmetric(x.name, y.name);
      assert x in multiset(sa) && y in multiset(sa);
      ByNameOfMember(a, x);
      ByNameOfMember(a, y);
    }
    SortedUnique(sa, sb, Precedes);
  }

  lemma PriorityMergeIgnoresInputOrder(a: seq<RulePack>, b: seq<RulePack>, outA: seq<Rule>, outB: seq<Rule>)
    requires multiset(a) == multiset(b) && NoDup(Names(a))
    requires IsPriorityMerge(a, outA) && IsPriorityMerge(b, outB)
    ensures outA == outB
  {
    var sa :| SortedPacks(a, sa) && FirstWins(sa, outA);
    var sb :| SortedPacks(b, sb) && FirstWins(sb, outB);
    SortedPacksUnique(a, b, sa, sb);
  }

  /** Where pack k's rules start among all definitions. */
  ghost function Offset(byName: map<string, RulePack>, order: seq<string>, k: nat): nat
    requires k <= |order| && forall n :: n in order ==> n in byName
  {
    |Definitions(byName, order[..k])|
  }

  lemma {:induction false} DefinitionAt(byName: map<string, RulePack>, order: seq<string>, k: nat, i: nat)
    requires forall n :: n in order ==> n in byName
    requires k < |order| && i < |byName[order[k]].rules|
    ensures var a := Offset(byName, order, k) + i;
      a < Offset(byName, order, k + 1) <= |Definitions(byName, order)| &&
      Definitions(byName, order)[a] == byName[order[k]].rules[i]
  {
    var n := |order| - 1;
    assert order[..k + 1][..k] == order[..k];
    if k < n {
      DefinitionAt(byName, order[..n], k, i);
      assert order[..n][..k] == order[..k] && order[..n][..k + 1] == order[..k + 1];
    } else {
      assert order[..k + 1] == order;
    }
  }

  lemma {:induction false} OffsetMonotone(byName: map<string, RulePack>, order: seq<string>, j: nat, k: nat)
    requires forall n :: n in order ==> n in byName
    requires j <= k <= |order|
    ensures Offset(byName, order, j) <= Offset(byName, order, k)
  {
    if j < k {
      assert order[..k][..k - 1] == order[..k - 1];
      OffsetMonotone(byName, order, j, k - 1);
    }
  }

  lemma {:induction false} Locate(byName: map<string, RulePack>, order: seq<string>, a: nat) returns (k: nat, i: nat)
    requires forall n :: n in order ==> n in byName
    requires a < |Definitions(byName, order)|
    ensures k < |order| && i < |byName[order[k]].rules| && a == Offset(byName, order, k) + i
    ensures Definitions(byName, order)[a] == byName[order[k]].rules[i]
  {
    var n := |order| - 1;
    if a < |Definitions(byName, order[..n])| {
      k, i := Locate(byName, order[..n], a);
      assert order[..n][..k] == order[..k];
    } else {
      k, i := n, a - |Definitions(byName, order[..n])|;
    }
  }

  ghost predicate DefinesAt(p: RulePack, i: int, id: string) {
    0 <= i < |p.rules| && p.rules[i].id == id
  }

  /** The pack's priority; 0 when it has no composition. */
  predicate HasPriority(p: RulePack, n: int) {
    if p.composition.None? then n == 0 else n == p.composition.value.priority
  }

  /** q has a lower priority than p, or the same and no smaller name. */
  ghost predicate NotOutranked(p: RulePack, q: RulePack) {
    forall m, n :: HasPriority(p, m) && HasPriority(q, n) ==> m > n || (m == n && Leq(p.name, q.name))
  }

  lemma PrecedingIsNotOutranked(p: RulePack, q: RulePack)
    ensures Precedes(p, q) <==> NotOutranked(p, q)
  {
    assert HasPriority(p, Priority(p)) && HasPriority(q, Priority(q));
  }

  /** r comes from the first definition of its id in p, and no pack defining it outranks p. */
  ghost predicate FromBestPack(packs: seq<RulePack>, ovs: seq<Override>, r: Rule, p: RulePack, i: int) {
    && p in packs && DefinesAt(p, i, r.id) && IsFirst(p.rules, i) && r == Final(p.rules[i], ovs)
    && forall q, j :: q in packs && DefinesAt(q, j, r.id) ==> NotOutranked(p, q)
  }

  lemma NoEarlierDefiner(byName: map<string, RulePack>, order: seq<string>, a: nat, k: nat, i: nat, k': nat, j: nat)
    requires forall n :: n in order ==> n in byName
    requires IsFirst(Definitions(byName, order), a)
    requires k < |order| && i < |byName[order[k]].rules| && a == Offset(byName, order, k) + i
    requires k' < |order| && DefinesAt(byName[order[k']], j, byName[order[k]].rules[i].id)
    ensures k <= k'
  {
    DefinitionAt(byName, order, k, i);
    DefinitionAt(byName, order, k', j);
    if k' < k {
      OffsetMonotone(byName, order, k' + 1, k);
    }
  }

  lemma DefinerFollows(sorted: seq<RulePack>, a: nat, k: nat, i: nat, q: RulePack, j: nat)
    requires NoDup(Names(sorted)) && SortedBy(sorted, Precedes) && forall n :: n in Names(sorted) ==> n in ByName(sorted)
    requires IsFirst(Definitions(ByName(sorted), Names(sorted)), a) && k < |sorted| && i < |sorted[k].rules|
    requires a == Offset(ByName(sorted), Names(sorted), k) + i
    requires q in sorted && DefinesAt(q, j, sorted[k].rules[i].id)
    ensures Precedes(sorted[k], q)
  {
    var k' :| 0 <= k' < |sorted| && sorted[k'] == q;
    ByNameOfMember(sorted, q);
    ByNameOfMember(sorted, sorted[k]);
    NoEarlierDefiner(ByName(sorted), Names(sorted), a, k, i, k', j);
    LeqTotal(q.name, q.name);
  }

  /** The first definition of an id, when packs are processed in the sorted sequence. */
  lemma BestDefinition(sorted: seq<RulePack>, ovs: seq<Override>, a: nat)
    requires NoDup(Names(sorted)) && SortedBy(sorted, Precedes)
    requires forall n :: n in Names(sorted) ==> n in ByName(sorted)
    requires IsFirst(Definitions(ByName(sorted), Names(sorted)), a)
    ensures exists p, i :: FromBestPack(sorted, ovs, Final(Definitions(ByName(sorted), Names(sorted))[a], ovs), p, i)
  {
    var byName, order := ByName(sorted), Names(sorted);
    var k, i := Locate(byName, order, a);
    var p := sorted[k];
    ByNameOfMember(sorted, p);
    forall j | 0 <= j < i ensures p.rules[j].id != p.rules[i].id {
      DefinitionAt(byName, order, k, j);
    }
    forall q, j | q in sorted && DefinesAt(q, j, p.rules[i].id) ensures NotOutranked(p, q) {
      DefinerFollows(sorted, a, k, i, q, j);
      PrecedingIsNotOutranked(p, q);
    }
    assert FromBestPack(sorted, ovs, Final(p.rules[i], ovs), p, i);
  }

  lemma UnrelatedOrder(sorted: seq<RulePack>)
    requires NoDup(Names(sorted))
    requires forall a, b :: Edge(ExtendsGraph(ByName(sorted)), a, b) ==> a == b
    ensures PriorityOrder(sorted) == Names(sorted)
  {
    SortedNamesCover(sorted, Names(sorted));
    forall n | n in Names(sorted) ensures n in ExtendsGraph(ByName(sorted)) { assert n in Elems(Names(sorted)); }
    FlatOrder(ExtendsGraph(ByName(sorted)), Names(sorted), Walk({}, []));
  }

  /** Overrides of the packs, one pack after the other. */
  ghost function OverridesOf(packs: seq<RulePack>): seq<Override> {
    if packs == [] then [] else OverridesOf(packs[..|packs| - 1]) + packs[|packs| - 1].overrides
  }

  lemma {:induction false} OverridesInSequence(byName: map<string, RulePack>, names: seq<string>, packs: seq<RulePack>)
    requires |names| == |packs|
    requires forall n :: n in names ==> n in byName
    requires forall i :: 0 <= i < |packs| ==> byName[names[i]] == packs[i]
    ensures AllOverrides(byName, names) == OverridesOf(packs)
  {
    if names != [] {
      OverridesInSequence(byName, names[..|names| - 1], packs[..|packs| - 1]);
    }
  }

  lemma BestOfSorted(sorted: seq<RulePack>, out: seq<Rule>, r: Rule)
    requires NoDup(Names(sorted)) && SortedBy(sorted, Precedes) && FirstWins(sorted, out) && r in out
    requires forall a, b :: Edge(ExtendsGraph(ByName(sorted)), a, b) ==> a == b
    ensures exists p, i :: FromBestPack(sorted, OverridesOf(sorted), r, p, i)
  {
    UnrelatedOrder(sorted);
    var byName, order := ByName(sorted), Names(sorted);
    var defs, ovs := Definitions(byName, order), AllOverrides(byName, order);
    var ix := ActiveIndices(defs, ovs, FirstIndices(defs));
    var m :| 0 <= m < |out| && out[m] == r;
    assert ix[m] in ix;
    BestDefinition(sorted, ovs, ix[m]);
    forall i | 0 <= i < |sorted| ensures byName[order[i]] == sorted[i] { ByNameOfMember(sorted, sorted[i]); }
    OverridesInSequence(byName, order, sorted);
  }

  /** When no pack extends another, the highest-priority definer supplies the rule. */
  lemma HighestPriorityWins(packs: seq<RulePack>, out: seq<Rule>, r: Rule)
    requires NoDup(Names(packs)) && IsPriorityMerge(packs, out) && r in out
    requires forall a, b :: Edge(ExtendsGraph(ByName(packs)), a, b) ==> a == b
    ensures exists sorted, p, i :: SortedPacks(packs, sorted) && FromBestPack(packs, OverridesOf(sorted), r, p, i)
  {
    var sorted: seq<RulePack> :| SortedPacks(packs, sorted) && FirstWins(sorted, out);
    SortedNamesDistinct(packs, sorted);
    PermutedByName(packs, sorted);
    BestOfSorted(sorted, out, r);
    var p, i :| FromBestPack(sorted, OverridesOf(sorted), r, p, i);
    SameMembers(packs, sorted);
    assert FromBestPack(packs, OverridesOf(sorted), r, p, i);
  }

  lemma SortedNamesDistinct(packs: seq<RulePack>, sorted: seq<RulePack>)
    requires NoDup(Names(packs)) && multiset(sorted) == multiset(packs)
    ensures NoDup(Names(sorted))
  {
    assert NoDup(packs) by {
      forall a, b | 0 <= a < b < |packs| ensures packs[a] != packs[b] {
        assert Names(packs)[a] != Names(packs)[b];
      }
    }
    PermutationNoDup(packs, sorted);
    forall i, j | 0 <= i < j < |sorted| ensures Names(sorted)[i] != Names(sorted)[j] {
      assert sorted[i] in multiset(packs) && sorted[j] in multiset(packs);
      ByNameOfMember(packs, sorted[i]);
      ByNameOfMember(packs, sorted[j]);
    }
  }

  ghost predicate DefinedOnce(packs: seq<RulePack>) {
    forall p, q, i, j, id :: p in packs && q in packs && DefinesAt(p, i, id) && DefinesAt(q, j, id) ==>
      p == q && i == j
  }

  lemma DistinctDefinitions(packs: seq<RulePack>, order: seq<string>)
    requires DefinedOnce(packs) && NoDup(order)
    requires forall n :: n in order ==> n in ByName(packs)
    ensures DistinctIds(Definitions(ByName(packs), order))
  {
    var byName := ByName(packs);
    var defs := Definitions(byName, order);
    forall a, b | 0 <= a < |defs| && 0 <= b < |defs| && defs[a].id == defs[b].id ensures a == b {
      var k, i := Locate(byName, order, a);
      var k', i' := Locate(byName, order, b);
      assert DefinesAt(byName[order[k]], i, defs[a].id) && DefinesAt(byName[order[k']], i', defs[a].id);
      assert order[k] == order[k'];
    }
  }

  lemma SameOrder(packs: seq<RulePack>, sorted: seq<RulePack>)
    requires NoDup(Names(packs)) && NoDup(Names(sorted)) && ByName(packs) == ByName(sorted)
    requires SortedPacks(packs, sorted)
    requires forall p, q :: p in packs && q in packs ==> Priority(p) == Priority(q)
    ensures MergeOrder(packs) == PriorityOrder(sorted)
  {
    PermutedNames(packs, sorted);
    forall i, j | 0 <= i < j < |sorted| ensures Leq(sorted[i].name, sorted[j].name) {
      assert sorted[i] in multiset(packs) && sorted[j] in multiset(packs);
      assert Precedes(sorted[i], sorted[j]);
    }
    forall x, y | Leq(x, y) && Leq(y, x) ensures x == y { LeqAntisymmetric(x, y); }
    SortedUnique(Names(sorted), SortStrings(Names(packs)), Leq);
  }

  /** With equal priorities and no id defined twice both strategies keep the same rules. */
  lemma EqualPrioritiesAgree(packs: seq<RulePack>, merged: seq<Rule>, prioritised: seq<Rule>)
    requires NoDup(Names(packs)) && DefinedOnce(packs)
    requires forall p, q :: p in packs && q in packs ==> Priority(p) == Priority(q)
    requires IsMerge(packs, merged) && IsPriorityMerge(packs, prioritised)
    ensures multiset(merged) == multiset(prioritised)
  {
    var sorted: seq<RulePack> :| SortedPacks(packs, sorted) && FirstWins(sorted, prioritised);
    SortedNamesDistinct(packs, sorted);
    PermutedByName(packs, sorted);
    SameOrder(packs, sorted);
    DistinctDefinitions(packs, MergeOrder(packs));
    SameOrderAgrees(packs, sorted, merged, prioritised);
  }

  lemma SameOrderAgrees(packs: seq<RulePack>, sorted: seq<RulePack>, merged: seq<Rule>, prioritised: seq<Rule>)
    requires IsMerge(packs, merged) && FirstWins(sorted, prioritised)
    requires ByName(packs) == ByName(sorted) && MergeOrder(packs) == PriorityOrder(sorted)
    requires DistinctIds(Definitions(ByName(packs), MergeOrder(packs)))
    ensures multiset(merged) == multiset(prioritised)
  {
    var byName, order := ByName(packs), MergeOrder(packs);
    SameSurvivors(Definitions(byName, order), AllOverrides(byName, order), merged);
  }

  ghost predicate DistinctIds(defs: seq<Rule>) {
    forall a, b :: 0 <= a < |defs| && 0 <= b < |defs| && defs[a].id == defs[b].id ==> a == b
  }

  lemma SameSurvivors(defs: seq<Rule>, ovs: seq<Override>, merged: seq<Rule>)
    requires DistinctIds(defs)
    requires StrictlyById(merged) && forall r :: r in merged <==> Survives(defs, ovs, r)
    ensures multiset(merged) == multiset(Kept(defs, ovs))
  {
    KeptDistinct(defs, ovs);
    forall r ensures r in merged <==> r in Kept(defs, ovs) {
      KeptIffSurvives(defs, ovs, r);
    }
    NoDupMultiset(merged, Kept(defs, ovs));
  }

  lemma KeptDistinct(defs: seq<Rule>, ovs: seq<Override>)
    requires DistinctIds(defs)
    ensures NoDup(Kept(defs, ovs))
  {
    var ix := ActiveIndices(defs, ovs, FirstIndices(defs));
    forall i, j | 0 <= i < j < |ix| ensures Kept(defs, ovs)[i].id != Kept(defs, ovs)[j].id {
      assert defs[ix[i]].id != defs[ix[j]].id;
    }
  }

  lemma KeptIffSurvives(defs: seq<Rule>, ovs: seq<Override>, r: Rule)
    requires DistinctIds(defs)
    ensures r in Kept(defs, ovs) <==> Survives(defs, ovs, r)
  {
    var kept, ix := Kept(defs, ovs), ActiveIndices(defs, ovs, FirstIndices(defs));
    if r in kept {
      var k :| 0 <= k < |kept| && kept[k] == r;
      assert ix[k] in ix && IsLast(defs, ix[k]);
    } else if Survives(defs, ovs, r) {
      SurvivorIsKept(defs, ovs, r);
    }
  }

  lemma SurvivorIsKept(defs: seq<Rule>, ovs: seq<Override>, r: Rule)
    requires DistinctIds(defs) && Survives(defs, ovs, r)
    ensures r in Kept(defs, ovs)
  {
    var ix := ActiveIndices(defs, ovs, FirstIndices(defs));
    var i :| IsLast(defs, i) && r == Final(defs[i], ovs);
    assert IsFirst(defs, i) && i in ix;
    var k :| 0 <= k < |ix| && ix[k] == i;
    assert Kept(defs, ovs)[k] == r;
  }

  ghost predicate FirstDefinition(defs: seq<Rule>, ovs: seq<Override>, r: Rule) {
    exists a :: IsFirst(defs, a) && r == Final(defs[a], ovs)
  }

  /** Exactly the disabled ones among the first definitions are absent. */
  lemma DisabledFirstsAreAbsent(defs: seq<Rule>, ovs: seq<Override>, r: Rule)
    ensures r in Kept(defs, ovs) <==> r.enabled != Some(false) && FirstDefinition(defs, ovs, r)
  {
    var kept, ix := Kept(defs, ovs), ActiveIndices(defs, ovs, FirstIndices(defs));
    if r in kept {
      var k :| 0 <= k < |kept| && kept[k] == r;
      assert ix[k] in ix;
    } else if a :| IsFirst(defs, a) && r == Final(defs[a], ovs) {
      if r.enabled != Some(false) {
        assert a in ix;
        var k :| 0 <= k < |ix| && ix[k] == a;
        assert kept[k] == r;
      }
    }
  }
}
