/** Which definition a last-wins merge keeps, in terms of pack names (internal/rules/merge.go). */
module MergeByName {
  import opened Ordering
  import opened RulePacks
  import opened ExtendsOrder
  import opened Merge
  import opened PriorityMerge

  lemma {:induction false} ByNameIsLast(packs: seq<RulePack>, i: nat)
    requires i < |packs| && forall j :: i < j < |packs| ==> packs[j].name != packs[i].name
    ensures packs[i].name in ByName(packs) && ByName(packs)[packs[i].name] == packs[i]
  {
    var n := |packs| - 1;
    if i < n {
      ByNameIsLast(packs[..n], i);
    }
  }

  lemma NoLaterDefiner(byName: map<string, RulePack>, order: seq<string>, a: nat, k: nat, i: nat, k': nat, j: nat)
    requires forall n :: n in order ==> n in byName
    requires IsLast(Definitions(byName, order), a)
    requires k < |order| && i < |byName[order[k]].rules| && a == Offset(byName, order, k) + i
    requires k' < |order| && DefinesAt(byName[order[k']], j, byName[order[k]].rules[i].id)
    ensures k' <= k
  {
    DefinitionAt(byName, order, k, i);
    DefinitionAt(byName, order, k', j);
    if k < k' {
      OffsetMonotone(byName, order, k + 1, k');
    }
  }

  /** r is the overridden last definition of its id in the pack at place k. */
  ghost predicate DefinedLastAt(byName: map<string, RulePack>, order: seq<string>, ovs: seq<Override>, r: Rule, k: nat, i: nat)
    requires forall n :: n in order ==> n in byName
  {
    && k < |order| && DefinesAt(byName[order[k]], i, r.id)
    && IsLast(byName[order[k]].rules, i) && r == Final(byName[order[k]].rules[i], ovs)
    && forall k', j :: 0 <= k' < |order| && DefinesAt(byName[order[k']], j, r.id) ==> k' <= k
  }

  lemma SurvivorPlace(byName: map<string, RulePack>, order: seq<string>, ovs: seq<Override>, r: Rule) returns (k: nat, i: nat)
    requires forall n :: n in order ==> n in byName
    requires Survives(Definitions(byName, order), ovs, r)
    ensures DefinedLastAt(byName, order, ovs, r, k, i)
  {
    var defs := Definitions(byName, order);
    var a :| IsLast(defs, a) && r == Final(defs[a], ovs);
    k, i := Locate(byName, order, a);
    var rules := byName[order[k]].rules;
    forall j | i < j < |rules| ensures rules[j].id != rules[i].id {
      DefinitionAt(byName, order, k, j);
    }
    forall k', j | 0 <= k' < |order| && DefinesAt(byName[order[k']], j, r.id) ensures k' <= k {
      NoLaterDefiner(byName, order, a, k, i, k', j);
    }
  }

  // ---------- packs that extend each other ----------

  /** p defines the rule, and no pack that defines it is reached only from names above those reaching p. */
  ghost predicate FromLatest(packs: seq<RulePack>, r: Rule, p: RulePack, i: int) {
    var byName := ByName(packs);
    && p.name in byName && byName[p.name] == p && DefinesAt(p, i, r.id) && IsLast(p.rules, i)
    && forall n, j :: n in byName && DefinesAt(byName[n], j, r.id) ==> ReachedNoLater(ExtendsGraph(byName), n, p.name)
  }

  /** On any graph, the pack that supplies a rule is, among all that define it, one whose least
      reaching name is greatest. */
  lemma LatestReachedWins(packs: seq<RulePack>, out: seq<Rule>, r: Rule)
    requires IsMerge(packs, out) && r in out
    ensures exists p, i :: FromLatest(packs, r, p, i)
  {
    var byName, order := ByName(packs), MergeOrder(packs);
    var k, i := SurvivorPlace(byName, order, AllOverrides(byName, order), r);
    var p := byName[order[k]];
    forall n, j | n in byName && DefinesAt(byName[n], j, r.id) ensures ReachedNoLater(ExtendsGraph(byName), n, p.name) {
      assert n in Elems(order);
      var k' :| 0 <= k' < |order| && order[k'] == n;
      PlacesByName(packs, k, k');
    }
    assert FromLatest(packs, r, p, i);
  }

  lemma PlacesByName(packs: seq<RulePack>, k: nat, k': nat)
    requires k' <= k < |MergeOrder(packs)|
    ensures ReachedNoLater(ExtendsGraph(ByName(packs)), MergeOrder(packs)[k'], MergeOrder(packs)[k])
  {
    var roots := SortStrings(Names(packs));
    SortedNamesCover(packs, roots);
    LastReachedLatest(ExtendsGraph(ByName(packs)), roots, k, k');
  }

  // ---------- packs that do not extend each other ----------

  predicate NameLeq(p: RulePack, q: RulePack) {
    Leq(p.name, q.name)
  }

  /** r comes from the last definition of its id in p, and no pack defining it has a greater name. */
  ghost predicate FromLastNamed(packs: seq<RulePack>, ovs: seq<Override>, r: Rule, p: RulePack, i: int) {
    && p in packs && DefinesAt(p, i, r.id) && IsLast(p.rules, i) && r == Final(p.rules[i], ovs)
    && forall q, j :: q in packs && DefinesAt(q, j, r.id) ==> Leq(q.name, p.name)
  }

  ghost predicate InNameOrder(packs: seq<RulePack>, sorted: seq<RulePack>) {
    multiset(sorted) == multiset(packs) && forall i, j :: 0 <= i < j < |sorted| ==> Leq(sorted[i].name, sorted[j].name)
  }

  lemma SortedNames(packs: seq<RulePack>, sorted: seq<RulePack>)
    requires NoDup(Names(packs)) && InNameOrder(packs, sorted)
    requires forall a, b :: Edge(ExtendsGraph(ByName(packs)), a, b) ==> a == b
    ensures NoDup(Names(sorted)) && ByName(sorted) == ByName(packs) && MergeOrder(packs) == Names(sorted)
  {
    SortedNamesDistinct(packs, sorted);
    PermutedByName(packs, sorted);
    PermutedNames(packs, sorted);
    LeqIsOrder();
    SortedUnique(Names(sorted), SortStrings(Names(packs)), Leq);
    SortedNamesCover(sorted, Names(sorted));
    forall n | n in Names(sorted) ensures n in ExtendsGraph(ByName(sorted)) { assert n in Elems(Names(sorted)); }
    FlatOrder(ExtendsGraph(ByName(sorted)), Names(sorted), Walk({}, []));
  }

  lemma NameOrderExists(packs: seq<RulePack>) returns (sorted: seq<RulePack>)
    ensures InNameOrder(packs, sorted)
  {
    LeqIsOrder();
    assert TotalPreorder(NameLeq);
    sorted := SortBy(packs, NameLeq);
    forall i, j | 0 <= i < j < |sorted| ensures Leq(sorted[i].name, sorted[j].name) {
      assert NameLeq(sorted[i], sorted[j]);
    }
  }

  /** When no pack extends another, the definition in the pack with the greatest name is kept, with
      overrides taken in ascending order of names. */
  lemma LastNameWins(packs: seq<RulePack>, out: seq<Rule>, r: Rule)
    requires NoDup(Names(packs)) && IsMerge(packs, out) && r in out
    requires forall a, b :: Edge(ExtendsGraph(ByName(packs)), a, b) ==> a == b
    ensures exists sorted, p, i :: InNameOrder(packs, sorted) && FromLastNamed(packs, OverridesOf(sorted), r, p, i)
  {
    var sorted := NameOrderExists(packs);
    SortedNames(packs, sorted);
    var byName, order := ByName(packs), Names(sorted);
    forall i | 0 <= i < |sorted| ensures byName[order[i]] == sorted[i] { ByNameOfMember(sorted, sorted[i]); }
    OverridesInSequence(byName, order, sorted);
    var k, i := SurvivorPlace(byName, order, OverridesOf(sorted), r);
    LastInNameOrder(packs, sorted, OverridesOf(sorted), r, k, i);
  }

  lemma LastInNameOrder(packs: seq<RulePack>, sorted: seq<RulePack>, ovs: seq<Override>, r: Rule, k: nat, i: nat)
    requires InNameOrder(packs, sorted) && forall n :: n in Names(sorted) ==> n in ByName(packs)
    requires forall x :: 0 <= x < |sorted| ==> ByName(packs)[Names(sorted)[x]] == sorted[x]
    requires DefinedLastAt(ByName(packs), Names(sorted), ovs, r, k, i)
    ensures FromLastNamed(packs, ovs, r, sorted[k], i)
  {
    SameMembers(packs, sorted);
    forall q, j | q in packs && DefinesAt(q, j, r.id) ensures Leq(q.name, sorted[k].name) {
      var k' :| 0 <= k' < |sorted| && sorted[k'] == q;
      assert k' <= k;
      LeqTotal(q.name, q.name);
    }
  }

  // ---------- disabled rules ----------

  /** Overrides included, r is what the last definition of its id amounts to. */
  ghost predicate LastDefinition(packs: seq<RulePack>, r: Rule) {
    var byName, order := ByName(packs), MergeOrder(packs);
    var defs := Definitions(byName, order);
    exists a :: IsLast(defs, a) && r == Final(defs[a], AllOverrides(byName, order))
  }

  /** Exactly the disabled rules are absent. */
  lemma DisabledAreAbsent(packs: seq<RulePack>, out: seq<Rule>, r: Rule)
    requires IsMerge(packs, out)
    ensures r in out <==> r.enabled != Some(false) && LastDefinition(packs, r)
  {
  }
}
