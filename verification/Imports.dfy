/** Recursive import resolution of file packs (internal/rules/loader.go). */
module Imports {
  import opened Ordering
  import opened RulePacks
  import opened ExtendsOrder

  datatype Lookup = Found(paths: seq<string>) | NotFound

  /** The file system: packs by path, and what each import spec of a pack resolves to. */
  datatype World = World(files: map<string, RulePack>, specs: map<(string, string), Lookup>) {
    /** `loadFile` stamps each pack with its path; specs resolve to loadable files. */
    ghost predicate Valid() {
      && (forall k :: k in files ==> files[k].sourcePath == k)
      && (forall s, k :: s in specs && specs[s].Found? && k in specs[s].paths ==> k in files)
    }

    /** `resolveImportSpec` from the directory of the importing pack. */
    function Resolve(path: string, spec: string): Lookup {
      if (path, spec) in specs then specs[(path, spec)] else NotFound
    }

    function Targets(path: string, imports: seq<string>): seq<string> {
      if imports == [] then []
      else
        var l := Resolve(path, imports[0]);
        (if l.Found? then l.paths else []) + Targets(path, imports[1..])
    }

    function ImportGraph(): Graph {
      map k | k in files :: Targets(k, files[k].imports)
    }
  }

  /** The variables captured by the `resolve` closure; `out` by source path. */
  datatype Progress = Progress(seen: set<string>, emitted: set<string>, out: seq<string>, failed: bool)

  ghost function Left(w: World, s: Progress): nat {
    |w.files.Keys - s.seen|
  }

  lemma LeftShrinks(w: World, s: Progress, t: Progress)
    requires s.seen <= t.seen
    ensures Left(w, t) <= Left(w, s)
    ensures forall k :: k in w.files && k !in s.seen && k in t.seen ==> Left(w, t) < Left(w, s)
  {
    var a, b := w.files.Keys - s.seen, w.files.Keys - t.seen;
    assert a == b + (a - b);
    forall k | k in w.files && k !in s.seen && k in t.seen ensures |b| < |a| {
      assert k in a - b;
    }
  }

  function Emit(path: string, s: Progress): Progress {
    if path in s.emitted then s else s.(emitted := s.emitted + {path}, out := s.out + [path])
  }

  function AfterResolve(w: World, path: string, s: Progress): (r: Progress)
    requires w.Valid() && path in w.files
    ensures s.seen <= r.seen && s.emitted <= r.emitted
    decreases Left(w, s), 2, 0
  {
    AfterImports(w, path, w.files[path].imports, Emit(path, s))
  }

  function AfterImports(w: World, path: string, imports: seq<string>, s: Progress): (r: Progress)
    requires w.Valid()
    ensures s.seen <= r.seen && s.emitted <= r.emitted
    decreases Left(w, s), 1, |imports|
  {
    if imports == [] then s
    else
      var l := w.Resolve(path, imports[0]);
      if l.NotFound? then s.(failed := true)
      else
        var t := AfterTargets(w, l.paths, s);
        LeftShrinks(w, s, t);
        AfterImports(w, path, imports[1..], t)
  }

  function AfterTargets(w: World, paths: seq<string>, s: Progress): (r: Progress)
    requires w.Valid() && forall k :: k in paths ==> k in w.files
    ensures s.seen <= r.seen && s.emitted <= r.emitted
    decreases Left(w, s), 0, |paths|
  {
    if paths == [] then s
    else if paths[0] in s.seen then AfterTargets(w, paths[1..], s)
    else
      var s1 := s.(seen := s.seen + {paths[0]});
      LeftShrinks(w, s, s1);
      var t := AfterResolve(w, paths[0], s1);
      LeftShrinks(w, s1, t);
      AfterTargets(w, paths[1..], t)
  }

  function Paths(packs: seq<RulePack>): (r: seq<string>)
    ensures |r| == |packs| && forall i :: 0 <= i < |r| ==> r[i] == packs[i].sourcePath
  {
    seq(|packs|, i requires 0 <= i < |packs| => packs[i].sourcePath)
  }

  /** The closure itself, updating its captured variables in place. */
  class Resolver {
    const w: World
    var seen: set<string>
    var emitted: set<string>
    var out: seq<RulePack>
    var importErr: bool

    constructor (w: World)
      ensures this.w == w && State() == Progress({}, {}, [], false) && Listed()
    {
      this.w := w;
      seen, emitted, out, importErr := {}, {}, [], false;
    }

    ghost function State(): Progress reads this {
      Progress(seen, emitted, Paths(out), importErr)
    }

    ghost predicate Listed() reads this {
      forall i :: 0 <= i < |out| ==> out[i].sourcePath in w.files && w.files[out[i].sourcePath] == out[i]
    }

    method Resolve(pack: RulePack)
      requires w.Valid() && Listed() && pack.sourcePath in w.files && w.files[pack.sourcePath] == pack
      modifies this
      ensures Listed() && State() == AfterResolve(w, pack.sourcePath, old(State()))
      decreases Left(w, State()), 1
    {
      var self := pack.sourcePath;
      if self !in emitted {
        emitted := emitted + {self};
        out := out + [pack];
        assert Paths(out) == old(Paths(out)) + [self];
      }
      ghost var start := State();
      assert start == Emit(self, old(State()));
      for i := 0 to |pack.imports|
        invariant Listed() && start.seen <= seen
        invariant AfterImports(w, self, pack.imports[i..], State()) == AfterImports(w, self, pack.imports, start)
      {
        assert pack.imports[i..][0] == pack.imports[i] && pack.imports[i..][1..] == pack.imports[i + 1..];
        var l := w.Resolve(self, pack.imports[i]);
        if l.NotFound? {
          importErr := true;
          return;
        }
        LeftShrinks(w, start, State());
        ResolveEach(l.paths);
      }
    }

    /** The inner loop over the packs one spec resolved to. */
    method ResolveEach(paths: seq<string>)
      requires w.Valid() && Listed() && forall k :: k in paths ==> k in w.files
      modifies this
      ensures Listed() && State() == AfterTargets(w, paths, old(State()))
      decreases Left(w, State()), 0
    {
      for j := 0 to |paths|
        invariant Listed() && old(seen) <= seen
        invariant AfterTargets(w, paths[j..], State()) == AfterTargets(w, paths, old(State()))
      {
        assert paths[j..][0] == paths[j] && paths[j..][1..] == paths[j + 1..];
        var key := paths[j];
        if key in seen {
          continue;
        }
        ghost var before := State();
        seen := seen + {key};
        LeftShrinks(w, old(State()), before);
        LeftShrinks(w, before, State());
        Resolve(w.files[key]);
      }
    }
  }

  // ---------- what resolution guarantees ----------

  ghost predicate AllFound(w: World, path: string, imports: seq<string>) {
    forall i :: 0 <= i < |imports| ==> w.Resolve(path, imports[i]).Found?
  }

  ghost predicate SpecsResolve(w: World, path: string) {
    path in w.files && AllFound(w, path, w.files[path].imports)
  }

  /** All imports of the pack resolved, and every imported pack is in `known`. */
  ghost predicate Done(w: World, path: string, known: set<string>) {
    SpecsResolve(w, path) && forall k :: k in w.Targets(path, w.files[path].imports) ==> k in known
  }

  /** Every pack emitted, except those still open, is fully resolved. */
  ghost predicate Closed(w: World, s: Progress, open: set<string>) {
    s.failed || forall k :: k in s.emitted && k !in open ==> Done(w, k, s.emitted)
  }

  ghost predicate Consistent(w: World, s: Progress) {
    s.seen == s.emitted && s.emitted <= w.files.Keys && NoDup(s.out) && Elems(s.out) == s.emitted
  }

  ghost predicate FailedSome(w: World, s: Progress) {
    s.failed ==> exists k :: k in s.emitted && !SpecsResolve(w, k)
  }

  /** What one call keeps and establishes, from any state in which `open` packs are on the stack. */
  ghost predicate Kept(w: World, s: Progress, r: Progress, open: set<string>, from: string) {
    && Consistent(w, r) && FailedSome(w, r) && Closed(w, r, open) && (s.failed ==> r.failed)
    && (forall k :: k in r.emitted && k !in s.emitted ==> Reaches(w.ImportGraph(), from, k))
  }

  lemma EmitKeeps(w: World, path: string, s: Progress, open: set<string>)
    requires w.Valid() && path in w.files
    requires Consistent(w, s.(seen := s.emitted)) && s.seen == s.emitted + {path}
    requires FailedSome(w, s) && Closed(w, s, open)
    ensures Kept(w, s, Emit(path, s), open + {path}, path)
  {
    var r := Emit(path, s);
    ReachesSelf(w.ImportGraph(), path);
    if path !in s.emitted {
      assert path !in s.out by { assert path !in Elems(s.out); }
      assert Elems(r.out) == Elems(s.out) + {path};
    }
  }

  lemma {:induction false} ResolveKeeps(w: World, path: string, s: Progress, open: set<string>)
    requires w.Valid() && path in w.files
    requires Consistent(w, s.(seen := s.emitted)) && s.seen == s.emitted + {path}
    requires FailedSome(w, s) && Closed(w, s, open)
    ensures Kept(w, s, AfterResolve(w, path, s), open, path)
    ensures path in AfterResolve(w, path, s).emitted
    ensures AfterResolve(w, path, s).failed || Done(w, path, AfterResolve(w, path, s).emitted)
    decreases Left(w, s), 2, 0
  {
    EmitKeeps(w, path, s, open);
    var s1 := Emit(path, s);
    ImportsKeep(w, path, w.files[path].imports, s1, open + {path});
    LeaveStack(w, s, s1, AfterResolve(w, path, s), open, path);
  }

  /** Once its imports are done the pack leaves the stack. */
  lemma LeaveStack(w: World, s: Progress, s1: Progress, r: Progress, open: set<string>, path: string)
    requires Kept(w, s, s1, open + {path}, path) && Kept(w, s1, r, open + {path}, path)
    requires r.failed || Done(w, path, r.emitted)
    ensures Kept(w, s, r, open, path)
  {
  }

  lemma {:induction false} ImportsKeep(w: World, path: string, imports: seq<string>, s: Progress, open: set<string>)
    requires w.Valid() && path in s.emitted && path in w.files
    requires Consistent(w, s) && FailedSome(w, s) && Closed(w, s, open)
    requires Suffix(imports, w.files[path].imports)
    ensures Kept(w, s, AfterImports(w, path, imports, s), open, path)
    ensures AfterImports(w, path, imports, s).failed || (AllFound(w, path, imports) &&
      forall k :: k in w.Targets(path, imports) ==> k in AfterImports(w, path, imports, s).emitted)
    decreases Left(w, s), 1, |imports|
  {
    if imports != [] {
      var l := w.Resolve(path, imports[0]);
      if l.NotFound? {
        assert !SpecsResolve(w, path);
      } else {
        var t := AfterTargets(w, l.paths, s);
        LeftShrinks(w, s, t);
        var all := w.files[path].imports;
        forall k | k in l.paths ensures Edge(w.ImportGraph(), path, k) {
          TargetsContain(w, path, all, |all| - |imports|, k);
        }
        TargetsKeep(w, path, l.paths, s, open);
        ImportsKeep(w, path, imports[1..], t, open);
      }
    }
  }

  lemma {:induction false} TargetsContain(w: World, path: string, imports: seq<string>, i: nat, k: string)
    requires i < |imports| && w.Resolve(path, imports[i]).Found? && k in w.Resolve(path, imports[i]).paths
    ensures k in w.Targets(path, imports)
  {
    if i > 0 {
      TargetsContain(w, path, imports[1..], i - 1, k);
    }
  }

  ghost predicate Suffix(a: seq<string>, b: seq<string>) {
    |a| <= |b| && a == b[|b| - |a|..]
  }

  lemma {:induction false} TargetsKeep(w: World, path: string, paths: seq<string>, s: Progress, open: set<string>)
    requires w.Valid() && path in w.files
    requires forall k :: k in paths ==> k in w.files && Edge(w.ImportGraph(), path, k)
    requires Consistent(w, s) && FailedSome(w, s) && Closed(w, s, open)
    ensures Kept(w, s, AfterTargets(w, paths, s), open, path)
    ensures forall k :: k in paths ==> k in AfterTargets(w, paths, s).emitted
    decreases Left(w, s), 0, |paths|
  {
    if paths != [] {
      var key := paths[0];
      if key in s.seen {
        TargetsKeep(w, path, paths[1..], s, open);
      } else {
        var s1 := s.(seen := s.seen + {key});
        LeftShrinks(w, s, s1);
        ResolveKeeps(w, key, s1, open);
        var t := AfterResolve(w, key, s1);
        LeftShrinks(w, s1, t);
        TargetsKeep(w, path, paths[1..], t, open);
        forall k | k in t.emitted && k !in s.emitted ensures Reaches(w.ImportGraph(), path, k) {
          PrependEdge(w.ImportGraph(), path, key, k);
        }
      }
    }
  }

  // ---------- the order of the output ----------

  ghost predicate LedAt(w: World, out: seq<string>, base: set<string>, i: int)
    requires 0 <= i < |out|
  {
    out[i] in base || exists j :: 0 <= j < i && Edge(w.ImportGraph(), out[j], out[i])
  }

  /** Every listed path is one of `base` or is imported by a pack listed before it. */
  ghost predicate Led(w: World, out: seq<string>, base: set<string>) {
    forall i :: 0 <= i < |out| ==> LedAt(w, out, base, i)
  }

  ghost predicate EmittedListed(s: Progress) {
    forall k :: k in s.emitted ==> k in s.out
  }

  /** One call only appends, and what it appends is led. */
  ghost predicate Appends(w: World, s: Progress, r: Progress, base: set<string>) {
    s.out <= r.out && Led(w, r.out, base) && EmittedListed(r)
  }

  lemma EmitAppends(w: World, path: string, s: Progress, base: set<string>)
    requires Led(w, s.out, base) && EmittedListed(s)
    requires path in base || exists m :: m in s.out && Edge(w.ImportGraph(), m, path)
    ensures Appends(w, s, Emit(path, s), base) && path in Emit(path, s).out
  {
    var r := Emit(path, s);
    if path !in s.emitted {
      forall i | 0 <= i < |r.out| ensures LedAt(w, r.out, base, i) {
        if i < |s.out| {
          assert LedAt(w, s.out, base, i);
          if j :| 0 <= j < i && Edge(w.ImportGraph(), s.out[j], s.out[i]) {
            assert r.out[j] == s.out[j];
          }
        } else if path !in base {
          var m :| m in s.out && Edge(w.ImportGraph(), m, path);
          var j :| 0 <= j < |s.out| && s.out[j] == m;
          assert r.out[j] == m;
        }
      }
    }
  }

  lemma {:induction false} ResolveAppends(w: World, path: string, s: Progress, base: set<string>)
    requires w.Valid() && path in w.files && Led(w, s.out, base) && EmittedListed(s)
    requires path in base || exists m :: m in s.out && Edge(w.ImportGraph(), m, path)
    ensures Appends(w, s, AfterResolve(w, path, s), base) && path in AfterResolve(w, path, s).out
    decreases Left(w, s), 2, 0
  {
    EmitAppends(w, path, s, base);
    ImportsAppend(w, path, w.files[path].imports, Emit(path, s), base);
  }

  lemma {:induction false} ImportsAppend(w: World, path: string, imports: seq<string>, s: Progress, base: set<string>)
    requires w.Valid() && path in w.files && path in s.out && Led(w, s.out, base) && EmittedListed(s)
    requires Suffix(imports, w.files[path].imports)
    ensures Appends(w, s, AfterImports(w, path, imports, s), base)
    decreases Left(w, s), 1, |imports|
  {
    if imports != [] {
      var l := w.Resolve(path, imports[0]);
      if l.Found? {
        var t, all := AfterTargets(w, l.paths, s), w.files[path].imports;
        LeftShrinks(w, s, t);
        forall k | k in l.paths ensures Edge(w.ImportGraph(), path, k) {
          TargetsContain(w, path, all, |all| - |imports|, k);
        }
        TargetsAppend(w, path, l.paths, s, base);
        ImportsAppend(w, path, imports[1..], t, base);
      }
    }
  }

  lemma {:induction false} TargetsAppend(w: World, path: string, paths: seq<string>, s: Progress, base: set<string>)
    requires w.Valid() && path in s.out && Led(w, s.out, base) && EmittedListed(s)
    requires forall k :: k in paths ==> k in w.files && Edge(w.ImportGraph(), path, k)
    ensures Appends(w, s, AfterTargets(w, paths, s), base)
    decreases Left(w, s), 0, |paths|
  {
    if paths != [] {
      var key := paths[0];
      if key in s.seen {
        TargetsAppend(w, path, paths[1..], s, base);
      } else {
        var s1 := s.(seen := s.seen + {key});
        LeftShrinks(w, s, s1);
        ResolveAppends(w, key, s1, base);
        var t := AfterResolve(w, key, s1);
        LeftShrinks(w, s1, t);
        TargetsAppend(w, path, paths[1..], t, base);
      }
    }
  }

  // ---------- loading ----------

  datatype Loaded = Packs(packs: seq<RulePack>) | ImportFailed | DuplicateName | BadPattern

  ghost predicate ReachableFrom(w: World, roots: seq<RulePack>, path: string) {
    path in w.files && exists r :: r in roots && Reaches(w.ImportGraph(), r.sourcePath, path)
  }

  ghost predicate ImportsResolve(w: World, roots: seq<RulePack>) {
    forall k :: ReachableFrom(w, roots, k) ==> SpecsResolve(w, k)
  }

  ghost predicate Clash(w: World, a: string, b: string) {
    a in w.files && b in w.files && a != b && w.files[a].name == w.files[b].name != ""
  }

  /** No two different reachable packs share a non-empty name. */
  ghost predicate NamesUnique(w: World, roots: seq<RulePack>) {
    forall a, b :: ReachableFrom(w, roots, a) && ReachableFrom(w, roots, b) ==> !Clash(w, a, b)
  }

  ghost predicate PatternsOk(w: World, roots: seq<RulePack>, patternsOk: RulePack -> bool) {
    forall k :: ReachableFrom(w, roots, k) ==> patternsOk(w.files[k])
  }

  ghost predicate IsFile(w: World, p: RulePack) {
    p.sourcePath in w.files && w.files[p.sourcePath] == p
  }

  ghost function RootPaths(roots: seq<RulePack>): set<string> {
    set p | p in roots :: p.sourcePath
  }

  /** Each reachable source path once, and nothing else; importers before what only they lead to. */
  ghost predicate IsReachableSet(w: World, roots: seq<RulePack>, out: seq<RulePack>) {
    && NoDup(Paths(out))
    && (forall i :: 0 <= i < |out| ==> IsFile(w, out[i]))
    && (forall k :: k in Paths(out) <==> ReachableFrom(w, roots, k))
    && Led(w, Paths(out), RootPaths(roots))
  }

  /** Each outcome of loading happens exactly under its own condition. */
  method LoadPacks(w: World, roots: seq<RulePack>, patternsOk: RulePack -> bool) returns (r: Loaded)
    requires w.Valid() && forall p :: p in roots ==> IsFile(w, p)
    ensures r.ImportFailed? <==> !ImportsResolve(w, roots)
    ensures r.DuplicateName? <==> ImportsResolve(w, roots) && !NamesUnique(w, roots)
    ensures r.Packs? ==> IsReachableSet(w, roots, r.packs)
    ensures r.BadPattern? <==> ImportsResolve(w, roots) && NamesUnique(w, roots) && !PatternsOk(w, roots, patternsOk)
  {
    var out, ok := ResolveRoots(w, roots);
    if !ok {
      return ImportFailed;
    }
    var unique := CheckUniqueNames(out);
    UniqueNamesMeaning(w, roots, out);
    if !unique {
      return DuplicateName;
    }
    for i := 0 to |out|
      invariant forall j :: 0 <= j < i ==> patternsOk(out[j])
    {
      if !patternsOk(out[i]) {
        assert Paths(out)[i] in Paths(out);
        return BadPattern;
      }
    }
    forall k | ReachableFrom(w, roots, k) ensures patternsOk(w.files[k]) {
      var i :| 0 <= i < |out| && Paths(out)[i] == k;
    }
    return Packs(out);
  }

  method ResolveRoots(w: World, roots: seq<RulePack>) returns (out: seq<RulePack>, ok: bool)
    requires w.Valid() && forall p :: p in roots ==> IsFile(w, p)
    ensures ok <==> ImportsResolve(w, roots)
    ensures ok ==> IsReachableSet(w, roots, out)
  {
    var rs := new Resolver(w);
    for i := 0 to |roots|
      invariant fresh(rs) && rs.w == w && rs.Listed()
      invariant RootsDone(w, roots, i, rs.State())
    {
      RootKeeps(w, roots, i, rs.State());
      rs.seen := rs.seen + {roots[i].sourcePath};
      rs.Resolve(roots[i]);
      if rs.importErr {
        return [], false;
      }
    }
    RootsComplete(w, roots, rs.State());
    return rs.out, true;
  }

  ghost predicate RootsDone(w: World, roots: seq<RulePack>, i: nat, s: Progress) {
    && Consistent(w, s) && !s.failed && Closed(w, s, {}) && Led(w, s.out, RootPaths(roots))
    && (forall k :: k in s.emitted ==> ReachableFrom(w, roots, k))
    && (forall j :: 0 <= j < i <= |roots| ==> roots[j].sourcePath in s.emitted)
  }

  lemma RootKeeps(w: World, roots: seq<RulePack>, i: nat, s: Progress)
    requires w.Valid() && i < |roots| && RootsDone(w, roots, i, s) && IsFile(w, roots[i])
    ensures var k := roots[i].sourcePath;
      var r := AfterResolve(w, k, s.(seen := s.seen + {k}));
      if r.failed then !ImportsResolve(w, roots) else RootsDone(w, roots, i + 1, r)
  {
    var k := roots[i].sourcePath;
    var s1 := s.(seen := s.seen + {k});
    ResolveKeeps(w, k, s1, {});
    var r := AfterResolve(w, k, s1);
    assert roots[i] in roots;
    assert EmittedListed(s1) by { assert forall x :: x in s.emitted ==> x in Elems(s.out); }
    ResolveAppends(w, k, s1, RootPaths(roots));
    forall x | x in r.emitted ensures ReachableFrom(w, roots, x) {
    }
  }

  lemma RootsComplete(w: World, roots: seq<RulePack>, s: Progress)
    requires RootsDone(w, roots, |roots|, s)
    ensures ImportsResolve(w, roots)
    ensures forall k :: k in s.out <==> ReachableFrom(w, roots, k)
  {
    forall k | ReachableFrom(w, roots, k) ensures k in s.emitted {
      ClosedUnderReach(w, roots, s.emitted, k);
    }
    assert forall k :: k in s.out <==> k in Elems(s.out);
  }

  lemma ClosedUnderReach(w: World, roots: seq<RulePack>, closed: set<string>, k: string)
    requires forall x :: x in closed ==> Done(w, x, closed)
    requires forall j :: 0 <= j < |roots| ==> roots[j].sourcePath in closed
    requires ReachableFrom(w, roots, k)
    ensures k in closed
  {
    var g := w.ImportGraph();
    var r :| r in roots && Reaches(g, r.sourcePath, k);
    var p :| PathFrom(g, p, r.sourcePath, k);
    for i := 1 to |p|
      invariant p[i - 1] in closed
    {
      assert Edge(g, p[i - 1], p[i]);
    }
  }

  ghost predicate ListedNamesUnique(packs: seq<RulePack>) {
    forall i, j :: 0 <= i < j < |packs| && packs[i].name == packs[j].name ==> packs[i].name == ""
  }

  method CheckUniqueNames(packs: seq<RulePack>) returns (ok: bool)
    ensures ok <==> ListedNamesUnique(packs)
  {
    var seen: map<string, string> := map[];
    for i := 0 to |packs|
      invariant forall n :: n in seen <==> n != "" && exists j :: 0 <= j < i && packs[j].name == n
      invariant ListedNamesUnique(packs[..i])
    {
      var name := packs[i].name;
      if name == "" {
        continue;
      }
      if name in seen {
        return false;
      }
      seen := seen[name := packs[i].sourcePath];
    }
    return true;
  }

  lemma UniqueNamesMeaning(w: World, roots: seq<RulePack>, out: seq<RulePack>)
    requires w.Valid() && IsReachableSet(w, roots, out)
    ensures ListedNamesUnique(out) <==> NamesUnique(w, roots)
  {
    if NamesUnique(w, roots) {
      forall i, j | 0 <= i < j < |out| && out[i].name == out[j].name ensures out[i].name == "" {
        assert Paths(out)[i] in Paths(out) && Paths(out)[j] in Paths(out);
        assert !Clash(w, Paths(out)[i], Paths(out)[j]);
      }
    }
    if ListedNamesUnique(out) {
      forall a, b | ReachableFrom(w, roots, a) && ReachableFrom(w, roots, b) ensures !Clash(w, a, b) {
        var i :| 0 <= i < |out| && Paths(out)[i] == a;
        var j :| 0 <= j < |out| && Paths(out)[j] == b;
        assert IsFile(w, out[i]) && IsFile(w, out[j]);
      }
    }
  }
}
