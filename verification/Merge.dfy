/** Merging rule packs by id (internal/rules/merge.go). */
module Merge {
  import opened Ordering
  import opened RulePacks
  import opened ExtendsOrder

  // ---------- what a merge means ----------

  /** `byName`: of several packs with one name the last is kept. */
  function ByName(packs: seq<RulePack>): (m: map<string, RulePack>)
    ensures m.Keys == set p | p in packs :: p.name
    ensures forall n :: n in m ==> m[n] in packs && m[n].name == n
  {
    if packs == [] then map[]
    else
      var last := |packs| - 1;
      assert packs == packs[..last] + [packs[last]];
      ByName(packs[..last])[packs[last].name := packs[last]]
  }

  function Names(packs: seq<RulePack>): (r: seq<string>)
    ensures |r| == |packs| && forall i :: 0 <= i < |r| ==> r[i] == packs[i].name
  {
    seq(|packs|, i requires 0 <= i < |packs| => packs[i].name)
  }

  function ExtendsGraph(byName: map<string, RulePack>): Graph {
    map n | n in byName :: byName[n].bases
  }

  /** Processing order of packs whose roots are visited in the given sequence. */
  ghost function Processing(packs: seq<RulePack>, roots: seq<string>): seq<string> {
    Order(ExtendsGraph(ByName(packs)), roots)
  }

  /** All rule definitions in processing order. */
  function Definitions(byName: map<string, RulePack>, order: seq<string>): seq<Rule>
    requires forall n :: n in order ==> n in byName
  {
    if order == [] then []
    else Definitions(byName, order[..|order| - 1]) + byName[order[|order| - 1]].rules
  }

  function AllOverrides(byName: map<string, RulePack>, order: seq<string>): seq<Override>
    requires forall n :: n in order ==> n in byName
  {
    if order == [] then []
    else AllOverrides(byName, order[..|order| - 1]) + byName[order[|order| - 1]].overrides
  }

  ghost predicate IsLast(defs: seq<Rule>, i: int) {
    0 <= i < |defs| && forall j :: i < j < |defs| ==> defs[j].id != defs[i].id
  }

  ghost predicate IsFirst(defs: seq<Rule>, i: int) {
    0 <= i < |defs| && forall j :: 0 <= j < i ==> defs[j].id != defs[i].id
  }

  /** The last override of a rule that sets a severity decides it. */
  function SeverityAfter(ovs: seq<Override>, id: string, base: string): (s: string)
    ensures (exists k :: SetsSeverity(ovs, k, id) && s == ovs[k].severity &&
              forall j :: k < j < |ovs| ==> !SetsSeverity(ovs, j, id))
         || (s == base && forall j :: !SetsSeverity(ovs, j, id))
  {
    if ovs == [] then base
    else
      var n := |ovs| - 1;
      if ovs[n].ruleId == id && ovs[n].severity != "" then assert SetsSeverity(ovs, n, id); ovs[n].severity
      else
        var s := SeverityAfter(ovs[..n], id, base);
        assert forall j {:trigger SetsSeverity(ovs, j, id)} :: SetsSeverity(ovs, j, id) <==> SetsSeverity(ovs[..n], j, id);
        s
  }

  predicate SetsSeverity(ovs: seq<Override>, k: int, id: string) {
    0 <= k < |ovs| && ovs[k].ruleId == id && ovs[k].severity != ""
  }

  /** The last override of a rule that carries an enabled flag decides it. */
  function EnabledAfter(ovs: seq<Override>, id: string, base: Option<bool>): (e: Option<bool>)
    ensures (exists k :: SetsEnabled(ovs, k, id) && e == ovs[k].enabled &&
              forall j :: k < j < |ovs| ==> !SetsEnabled(ovs, j, id))
         || (e == base && forall j :: !SetsEnabled(ovs, j, id))
  {
    if ovs == [] then base
    else
      var n := |ovs| - 1;
      if ovs[n].ruleId == id && ovs[n].enabled.Some? then assert SetsEnabled(ovs, n, id); ovs[n].enabled
      else
        var e := EnabledAfter(ovs[..n], id, base);
        assert forall j {:trigger SetsEnabled(ovs, j, id)} :: SetsEnabled(ovs, j, id) <==> SetsEnabled(ovs[..n], j, id);
        e
  }

  predicate SetsEnabled(ovs: seq<Override>, k: int, id: string) {
    0 <= k < |ovs| && ovs[k].ruleId == id && ovs[k].enabled.Some?
  }

  function Final(r: Rule, ovs: seq<Override>): Rule {
    r.(severity := SeverityAfter(ovs, r.id, r.severity), enabled := EnabledAfter(ovs, r.id, r.enabled))
  }

  predicate Active(r: Rule) {
    r.enabled.None? || r.enabled.value
  }

  ghost predicate StrictlyById(rs: seq<Rule>) {
    forall i, j :: 0 <= i < j < |rs| ==> Leq(rs[i].id, rs[j].id) && rs[i].id != rs[j].id
  }

  /** r survives a last-wins merge of these definitions and overrides. */
  ghost predicate Survives(defs: seq<Rule>, ovs: seq<Override>, r: Rule) {
    Active(r) && exists i :: IsLast(defs, i) && r == Final(defs[i], ovs)
  }

  /** `out` lists exactly the surviving rules, strictly sorted by id. */
  ghost predicate IsMerge(packs: seq<RulePack>, out: seq<Rule>) {
    var byName, order := ByName(packs), MergeOrder(packs);
    && StrictlyById(out)
    && forall r :: r in out <==> Survives(Definitions(byName, order), AllOverrides(byName, order), r)
  }

  /** Processing order of MergePacks: roots sorted by name. */
  ghost function MergeOrder(packs: seq<RulePack>): (order: seq<string>)
    ensures NoDup(order) && Elems(order) == ByName(packs).Keys
    ensures forall n :: n in order ==> n in ByName(packs)
  {
    var names := SortStrings(Names(packs));
    SortedNamesCover(packs, names);
    OrderComplete(ExtendsGraph(ByName(packs)), names);
    var order := Processing(packs, names);
    assert forall n :: n in order ==> n in Elems(order);
    order
  }

  lemma SortedNamesCover(packs: seq<RulePack>, names: seq<string>)
    requires multiset(names) == multiset(Names(packs))
    ensures Elems(names) == ByName(packs).Keys
  {
    forall n ensures n in names <==> n in Names(packs) {
      assert n in names <==> n in multiset(names);
      assert n in Names(packs) <==> n in multiset(Names(packs));
    }
    forall p | p in packs ensures p.name in Names(packs) {
      var i :| 0 <= i < |packs| && packs[i] == p;
      assert Names(packs)[i] == p.name;
    }
  }

  // ---------- MergePacks ----------

  /** A rule table and the definitions and overrides folded into it so far. */
  ghost predicate TableOf(byId: map<string, Rule>, defs: seq<Rule>, ovs: seq<Override>) {
    && (forall id :: id in byId ==> exists i :: IsLast(defs, i) && defs[i].id == id && byId[id] == Final(defs[i], ovs))
    && (forall i :: 0 <= i < |defs| ==> defs[i].id in byId)
  }

  lemma DefineRule(byId: map<string, Rule>, defs: seq<Rule>, r: Rule)
    requires TableOf(byId, defs, [])
    ensures TableOf(byId[r.id := r], defs + [r], [])
  {
    var defs' := defs + [r];
    var m := byId[r.id := r];
    forall id | id in m
      ensures exists i :: IsLast(defs', i) && defs'[i].id == id && m[id] == Final(defs'[i], [])
    {
      if id == r.id {
        assert IsLast(defs', |defs|);
        assert Final(r, []) == r;
      } else {
        var i :| IsLast(defs, i) && defs[i].id == id && byId[id] == Final(defs[i], []);
        assert IsLast(defs', i);
      }
    }
  }

  function Patched(r: Rule, ov: Override): Rule {
    var r1 := if ov.severity != "" then r.(severity := ov.severity) else r;
    if ov.enabled.Some? then r1.(enabled := ov.enabled) else r1
  }

  lemma FinalExtends(r: Rule, ovs: seq<Override>, ov: Override)
    ensures Final(r, ovs + [ov]) == if ov.ruleId == r.id then Patched(Final(r, ovs), ov) else Final(r, ovs)
  {
    assert (ovs + [ov])[..|ovs|] == ovs;
  }

  lemma OverrideRule(byId: map<string, Rule>, defs: seq<Rule>, ovs: seq<Override>, ov: Override)
    requires TableOf(byId, defs, ovs)
    ensures TableOf(
      if ov.ruleId in byId then byId[ov.ruleId := Patched(byId[ov.ruleId], ov)] else byId, defs, ovs + [ov])
  {
    var m := if ov.ruleId in byId then byId[ov.ruleId := Patched(byId[ov.ruleId], ov)] else byId;
    forall id | id in m
      ensures exists i :: IsLast(defs, i) && defs[i].id == id && m[id] == Final(defs[i], ovs + [ov])
    {
      var i :| IsLast(defs, i) && defs[i].id == id && byId[id] == Final(defs[i], ovs);
      FinalExtends(defs[i], ovs, ov);
    }
  }

  method MergePacks(packs: seq<RulePack>) returns (out: seq<Rule>)
    ensures IsMerge(packs, out)
  {
    var byName, names := IndexPacks(packs);
    names := SortStrings(names);
    SortedNamesCover(packs, names);
    var walker := new Walker(ExtendsGraph(byName));
    forall n | n in names ensures n in walker.g { assert n in Elems(names); }
    walker.VisitRoots(names);
    var order := walker.order;
    assert order == MergeOrder(packs);
    var byId := CollectRules(byName, order);
    byId := ApplyOverrides(byName, order, byId);
    out := Materialize(byId);
    ghost var defs, ovs := Definitions(byName, order), AllOverrides(byName, order);
    forall r ensures r in out <==> Survives(defs, ovs, r) {
      TableSurvivors(byId, defs, ovs, r);
    }
  }

  lemma TableSurvivors(byId: map<string, Rule>, defs: seq<Rule>, ovs: seq<Override>, r: Rule)
    requires TableOf(byId, defs, ovs)
    ensures (r.id in byId && byId[r.id] == r && Active(r)) <==> Survives(defs, ovs, r)
  {
    if Survives(defs, ovs, r) {
      var i :| IsLast(defs, i) && r == Final(defs[i], ovs);
      assert defs[i].id in byId;
      var k :| IsLast(defs, k) && defs[k].id == r.id && byId[r.id] == Final(defs[k], ovs);
      assert i == k;
    }
  }

  method IndexPacks(packs: seq<RulePack>) returns (byName: map<string, RulePack>, names: seq<string>)
    ensures byName == ByName(packs) && names == Names(packs)
  {
    byName, names := map[], [];
    for i := 0 to |packs|
      invariant byName == ByName(packs[..i]) && names == Names(packs[..i])
    {
      assert packs[..i + 1][..i] == packs[..i];
      byName := byName[packs[i].name := packs[i]];
      names := names + [packs[i].name];
    }
    assert packs[..|packs|] == packs;
  }

  method CollectRules(byName: map<string, RulePack>, order: seq<string>) returns (byId: map<string, Rule>)
    requires forall n :: n in order ==> n in byName
    ensures TableOf(byId, Definitions(byName, order), [])
  {
    byId := map[];
    ghost var defs := [];
    for i := 0 to |order|
      invariant defs == Definitions(byName, order[..i]) && TableOf(byId, defs, [])
    {
      var rules := byName[order[i]].rules;
      byId := CollectPack(byId, rules, defs);
      defs := defs + rules;
      assert order[..i + 1][..i] == order[..i];
    }
    assert order[..|order|] == order;
  }

  method CollectPack(table: map<string, Rule>, rules: seq<Rule>, ghost before: seq<Rule>) returns (byId: map<string, Rule>)
    requires TableOf(table, before, [])
    ensures TableOf(byId, before + rules, [])
  {
    byId := table;
    ghost var defs := before;
    for j := 0 to |rules|
      invariant defs == before + rules[..j] && TableOf(byId, defs, [])
    {
      DefineRule(byId, defs, rules[j]);
      defs := defs + [rules[j]];
      byId := byId[rules[j].id := rules[j]];
    }
    assert rules[..|rules|] == rules;
  }

  method ApplyOverrides(byName: map<string, RulePack>, order: seq<string>, table: map<string, Rule>)
    returns (byId: map<string, Rule>)
    requires forall n :: n in order ==> n in byName
    requires TableOf(table, Definitions(byName, order), [])
    ensures TableOf(byId, Definitions(byName, order), AllOverrides(byName, order))
  {
    byId := table;
    ghost var defs, ovs := Definitions(byName, order), [];
    for i := 0 to |order|
      invariant ovs == AllOverrides(byName, order[..i]) && TableOf(byId, defs, ovs)
    {
      var overrides := byName[order[i]].overrides;
      byId := OverridePack(byId, overrides, defs, ovs);
      ovs := ovs + overrides;
      assert order[..i + 1][..i] == order[..i];
    }
    assert order[..|order|] == order;
  }

  method OverridePack(table: map<string, Rule>, overrides: seq<Override>, ghost defs: seq<Rule>, ghost before: seq<Override>)
    returns (byId: map<string, Rule>)
    requires TableOf(table, defs, before)
    ensures TableOf(byId, defs, before + overrides)
  {
    byId := table;
    ghost var ovs := before;
    for j := 0 to |overrides|
      invariant ovs == before + overrides[..j] && TableOf(byId, defs, ovs)
    {
      var ov := overrides[j];
      OverrideRule(byId, defs, ovs, ov);
      ovs := ovs + [ov];
      if ov.ruleId in byId {
        var r := byId[ov.ruleId];
        if ov.severity != "" {
          r := r.(severity := ov.severity);
        }
        if ov.enabled.Some? {
          r := r.(enabled := ov.enabled);
        }
        byId := byId[ov.ruleId := r];
      }
    }
    assert overrides[..|overrides|] == overrides;
  }

  /** Ranging over the table in any order, skipping disabled rules, then sorting. */
  method Materialize(byId: map<string, Rule>) returns (out: seq<Rule>)
    requires forall id :: id in byId ==> byId[id].id == id
    ensures StrictlyById(out)
    ensures forall r :: r in out <==> r.id in byId && byId[r.id] == r && Active(r)
  {
    var ids := ActiveIds(byId);
    SortDistinct(ids);
    out := ListById(byId, SortStrings(ids));
    TableListing(byId, SortStrings(ids), out);
  }

  method ListById(byId: map<string, Rule>, ids: seq<string>) returns (out: seq<Rule>)
    requires forall i :: 0 <= i < |ids| ==> ids[i] in byId
    ensures |out| == |ids| && forall k :: 0 <= k < |ids| ==> out[k] == byId[ids[k]]
  {
    out := [];
    for i := 0 to |ids|
      invariant |out| == i && forall k :: 0 <= k < i ==> out[k] == byId[ids[k]]
    {
      out := out + [byId[ids[i]]];
    }
  }

  method ActiveIds(byId: map<string, Rule>) returns (ids: seq<string>)
    ensures NoDup(ids)
    ensures forall id :: id in ids <==> id in byId && Active(byId[id])
  {
    ids := [];
    var left := byId.Keys;
    while left != {}
      invariant left <= byId.Keys && NoDup(ids)
      invariant forall id :: id in ids <==> id in byId && id !in left && Active(byId[id])
    {
      var id :| id in left;
      left := left - {id};
      if Active(byId[id]) {
        ids := ids + [id];
      }
    }
  }

  lemma TableListing(byId: map<string, Rule>, sorted: seq<string>, out: seq<Rule>)
    requires forall id :: id in byId ==> byId[id].id == id
    requires forall id :: id in sorted <==> id in byId && Active(byId[id])
    requires NoDup(sorted) && SortedBy(sorted, Leq) && |out| == |sorted|
    requires forall k :: 0 <= k < |out| ==> out[k] == byId[sorted[k]]
    ensures StrictlyById(out)
    ensures forall r :: r in out <==> r.id in byId && byId[r.id] == r && Active(r)
  {
    forall r: Rule | r.id in byId && byId[r.id] == r && Active(r) ensures r in out {
      var k :| 0 <= k < |sorted| && sorted[k] == r.id;
      assert out[k] == r;
    }
    forall i, j | 0 <= i < j < |out| ensures Leq(out[i].id, out[j].id) && out[i].id != out[j].id {
      assert sorted[i] in sorted && sorted[j] in sorted;
    }
  }

  // ---------- the merge does not depend on input order ----------

  lemma StrictByIdUnique(a: seq<Rule>, b: seq<Rule>)
    requires StrictlyById(a) && StrictlyById(b)
    requires forall r :: r in a <==> r in b
    ensures a == b
  {
    LeqIsOrder();
    var leq := (x: Rule, y: Rule) => Leq(x.id, y.id);
    assert NoDup(a) && NoDup(b);
    NoDupMultiset(a, b);
    forall x, y | x in a && y in a && leq(x, y) && leq(y, x) ensures x == y {
      var i :| 0 <= i < |a| && a[i] == x;
      var j :| 0 <= j < |a| && a[j] == y;
      assert x.id == y.id;
    }
    SortedUnique(a, b, leq);
  }

  lemma SamePack(packs: seq<RulePack>, i: nat, j: nat)
    requires NoDup(Names(packs)) && i < |packs| && j < |packs| && packs[i].name == packs[j].name
    ensures i == j
  {
    var names := Names(packs);
    assert names[i] == names[j];
  }

  lemma ByNameOfMember(packs: seq<RulePack>, p: RulePack)
    requires NoDup(Names(packs)) && p in packs
    ensures p.name in ByName(packs) && ByName(packs)[p.name] == p
  {
    var byName := ByName(packs);
    assert p.name in byName;
    var i :| 0 <= i < |packs| && packs[i] == p;
    var j :| 0 <= j < |packs| && packs[j] == byName[p.name];
    SamePack(packs, i, j);
  }

  lemma PermutedNames(a: seq<RulePack>, b: seq<RulePack>)
    requires NoDup(Names(a)) && NoDup(Names(b)) && ByName(a) == ByName(b)
    ensures multiset(Names(a)) == multiset(Names(b))
  {
    SortedNamesCover(a, Names(a));
    SortedNamesCover(b, Names(b));
    assert forall n :: n in Names(a) <==> n in Elems(Names(a));
    assert forall n :: n in Names(b) <==> n in Elems(Names(b));
    NoDupMultiset(Names(a), Names(b));
  }

  lemma PermutedByName(a: seq<RulePack>, b: seq<RulePack>)
    requires multiset(a) == multiset(b) && NoDup(Names(a)) && NoDup(Names(b))
    ensures ByName(a) == ByName(b)
  {
    SameMembers(a, b);
    forall n | n in ByName(a) ensures n in ByName(b) && ByName(a)[n] == ByName(b)[n] {
      ByNameOfMember(b, ByName(a)[n]);
    }
    forall n | n in ByName(b) ensures n in ByName(a) {
      ByNameOfMember(a, ByName(b)[n]);
    }
  }

  /** For distinct names any two runs on reordered packs give the same list. */
  lemma MergeIgnoresInputOrder(a: seq<RulePack>, b: seq<RulePack>, outA: seq<Rule>, outB: seq<Rule>)
    requires multiset(a) == multiset(b) && NoDup(Names(a)) && NoDup(Names(b))
    requires IsMerge(a, outA) && IsMerge(b, outB)
    ensures outA == outB
  {
    PermutedByName(a, b);
    PermutedNames(a, b);
    LeqIsOrder();
    SortedUnique(SortStrings(Names(a)), SortStrings(Names(b)), Leq);
    StrictByIdUnique(outA, outB);
  }
}
