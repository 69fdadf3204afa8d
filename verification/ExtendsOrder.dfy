/** The depth-first processing order over `extends` (internal/rules/merge.go). */
module ExtendsOrder {
  import opened Ordering

  /** Pack name to the names it extends; names that are not keys are dangling. */
  type Graph = map<string, seq<string>>

  /** The variables the `visit` closure captures. */
  datatype Walk = Walk(visited: set<string>, order: seq<string>)

  ghost function Unseen(g: Graph, w: Walk): nat {
    |g.Keys - w.visited|
  }

  lemma UnseenShrinks(g: Graph, w: Walk, w': Walk)
    requires w.visited <= w'.visited
    ensures Unseen(g, w') <= Unseen(g, w)
    ensures forall n :: n in g && n !in w.visited && n in w'.visited ==> Unseen(g, w') < Unseen(g, w)
  {
    var a, b := g.Keys - w.visited, g.Keys - w'.visited;
    assert a == b + (a - b);
    forall n | n in g && n !in w.visited && n in w'.visited ensures |b| < |a| {
      assert n in a - b;
    }
  }

  function AfterVisit(g: Graph, n: string, w: Walk): (r: Walk)
    ensures w.visited <= r.visited && n in r.visited
    decreases Unseen(g, w), 0
  {
    if n in w.visited then w
    else
      var w1 := w.(visited := w.visited + {n});
      if n !in g then w1
      else
        UnseenShrinks(g, w, w1);
        var r := AfterVisitAll(g, g[n], w1);
        r.(order := r.order + [n])
  }

  function AfterVisitAll(g: Graph, names: seq<string>, w: Walk): (r: Walk)
    ensures w.visited <= r.visited
    ensures forall n :: n in names && n in g ==> n in r.visited
    decreases Unseen(g, w), 1 + |names|
  {
    if names == [] then w
    else
      var w1 := if names[0] in g then AfterVisit(g, names[0], w) else w;
      UnseenShrinks(g, w, w1);
      AfterVisitAll(g, names[1..], w1)
  }

  function Order(g: Graph, roots: seq<string>): seq<string> {
    AfterVisitAll(g, roots, Walk({}, [])).order
  }

  /** The closure itself, updating `visited` and `order` in place. */
  class Walker {
    const g: Graph
    var visited: set<string>
    var order: seq<string>

    constructor (g: Graph)
      ensures this.g == g && visited == {} && order == []
    {
      this.g := g;
      visited, order := {}, [];
    }

    ghost function State(): Walk reads this {
      Walk(visited, order)
    }

    method Visit(n: string)
      modifies this
      ensures State() == AfterVisit(g, n, old(State()))
      decreases Unseen(g, State())
    {
      if n in visited {
        return;
      }
      visited := visited + {n};
      if n !in g {
        return;
      }
      ghost var entered := State();
      UnseenShrinks(g, old(State()), entered);
      var deps := g[n];
      for i := 0 to |deps|
        invariant entered.visited <= visited
        invariant AfterVisitAll(g, deps[i..], State()) == AfterVisitAll(g, deps, entered)
      {
        assert deps[i..][0] == deps[i] && deps[i..][1..] == deps[i + 1..];
        if deps[i] in g {
          UnseenShrinks(g, entered, State());
          Visit(deps[i]);
        }
      }
      order := order + [n];
    }

    method VisitRoots(roots: seq<string>)
      requires forall n :: n in roots ==> n in g
      requires visited == {} && order == []
      modifies this
      ensures order == Order(g, roots)
    {
      for i := 0 to |roots|
        invariant AfterVisitAll(g, roots[i..], State()) == AfterVisitAll(g, roots, Walk({}, []))
      {
        assert roots[i..][0] == roots[i] && roots[i..][1..] == roots[i + 1..];
        Visit(roots[i]);
      }
    }
  }

  // ---------- what the walk guarantees ----------

  ghost predicate Edge(g: Graph, a: string, b: string) {
    a in g && b in g && b in g[a]
  }

  ghost predicate Path(g: Graph, p: seq<string>) {
    p != [] && forall i :: 0 <= i < |p| - 1 ==> Edge(g, p[i], p[i + 1])
  }

  ghost predicate PathFrom(g: Graph, p: seq<string>, a: string, b: string) {
    Path(g, p) && p[0] == a && p[|p| - 1] == b
  }

  ghost predicate Reaches(g: Graph, a: string, b: string) {
    exists p :: PathFrom(g, p, a, b)
  }

  lemma ReachesSelf(g: Graph, a: string)
    ensures Reaches(g, a, a)
  {
    assert PathFrom(g, [a], a, a);
  }

  lemma ReachesStep(g: Graph, a: string, b: string, c: string)
    requires Reaches(g, a, b) && Edge(g, b, c)
    ensures Reaches(g, a, c)
  {
    var p :| PathFrom(g, p, a, b);
    assert PathFrom(g, p + [c], a, c);
  }

  lemma PrependEdge(g: Graph, a: string, b: string, c: string)
    requires Edge(g, a, b) && Reaches(g, b, c)
    ensures Reaches(g, a, c)
  {
    var p :| PathFrom(g, p, b, c);
    assert PathFrom(g, [a] + p, a, c);
  }

  /** Entered but not yet appended: the packs on the recursion stack. */
  ghost function Open(w: Walk): set<string> {
    w.visited - Elems(w.order)
  }

  /** Every present dependency of order[k] is listed earlier, or can reach back to it. */
  ghost predicate Respected(g: Graph, order: seq<string>) {
    forall k, d :: 0 <= k < |order| && Edge(g, order[k], d) ==>
      d in order[..k] || Reaches(g, d, order[k])
  }

  ghost predicate Good(g: Graph, w: Walk) {
    && w.visited <= g.Keys
    && Elems(w.order) <= w.visited
    && NoDup(w.order)
    && Respected(g, w.order)
  }

  ghost predicate OpenReach(g: Graph, w: Walk, n: string) {
    forall x :: x in Open(w) ==> Reaches(g, x, n)
  }

  lemma AppendPack(g: Graph, w: Walk, n: string)
    requires Good(g, w) && n in Open(w) && OpenReach(g, w, n)
    requires forall d :: Edge(g, n, d) ==> d in w.visited
    ensures Good(g, w.(order := w.order + [n]))
    ensures Open(w.(order := w.order + [n])) == Open(w) - {n}
  {
    var o := w.order + [n];
    assert Elems(o) == Elems(w.order) + {n};
    assert n !in w.order by {
      assert n !in Elems(w.order);
    }
    forall k, d | 0 <= k < |o| && Edge(g, o[k], d) ensures d in o[..k] || Reaches(g, d, o[k]) {
      if k < |w.order| {
        assert o[..k] == w.order[..k];
      } else {
        assert o[..k] == w.order;
        assert d in Elems(w.order) || d in Open(w);
      }
    }
  }

  lemma {:induction false} VisitGood(g: Graph, n: string, w: Walk)
    requires n in g && Good(g, w) && OpenReach(g, w, n)
    ensures Good(g, AfterVisit(g, n, w)) && Open(AfterVisit(g, n, w)) == Open(w)
    decreases Unseen(g, w), 0
  {
    if n !in w.visited {
      var w1 := w.(visited := w.visited + {n});
      UnseenShrinks(g, w, w1);
      assert n !in Elems(w.order);
      assert Open(w1) == Open(w) + {n};
      ReachesSelf(g, n);
      forall x, d | x in Open(w1) && d in g[n] && d in g ensures Reaches(g, x, d) {
        ReachesStep(g, x, n, d);
      }
      VisitAllGood(g, g[n], w1);
      AppendPack(g, AfterVisitAll(g, g[n], w1), n);
    }
  }

  lemma {:induction false} VisitAllGood(g: Graph, names: seq<string>, w: Walk)
    requires Good(g, w)
    requires forall n :: n in names && n in g ==> OpenReach(g, w, n)
    ensures Good(g, AfterVisitAll(g, names, w)) && Open(AfterVisitAll(g, names, w)) == Open(w)
    decreases Unseen(g, w), 1 + |names|
  {
    if names != [] {
      var w1 := if names[0] in g then AfterVisit(g, names[0], w) else w;
      if names[0] in g {
        VisitGood(g, names[0], w);
      }
      UnseenShrinks(g, w, w1);
      VisitAllGood(g, names[1..], w1);
    }
  }

  /** On any graph, cyclic or dangling: each pack name exactly once, and an
      `extends` edge is violated only when it lies on a cycle. */
  lemma OrderComplete(g: Graph, roots: seq<string>)
    requires Elems(roots) == g.Keys
    ensures NoDup(Order(g, roots)) && Elems(Order(g, roots)) == g.Keys
    ensures Respected(g, Order(g, roots))
  {
    var w0 := Walk({}, []);
    VisitAllGood(g, roots, w0);
    var r := AfterVisitAll(g, roots, w0);
    forall n | n in g ensures n in Elems(r.order) {
      assert n in Elems(roots);
      assert n !in Open(r);
    }
  }

  ghost predicate Acyclic(g: Graph) {
    forall a, b :: Edge(g, a, b) ==> !Reaches(g, b, a)
  }

  ghost predicate DependenciesFirst(g: Graph, order: seq<string>) {
    forall k, d :: 0 <= k < |order| && Edge(g, order[k], d) ==> d in order[..k]
  }

  /** Along a path every step moves strictly earlier in such an order. */
  lemma {:induction false} PathDescends(g: Graph, order: seq<string>, p: seq<string>, k: nat)
    requires NoDup(order) && DependenciesFirst(g, order) && Path(g, p)
    requires k < |order| && order[k] == p[0]
    ensures exists j :: 0 <= j <= k && order[j] == p[|p| - 1]
    decreases |p|
  {
    if |p| > 1 {
      assert Edge(g, p[0], p[1]);
      var j :| 0 <= j < k && order[j] == p[1];
      forall i | 0 <= i < |p[1..]| - 1 ensures Edge(g, p[1..][i], p[1..][i + 1]) {
        assert Edge(g, p[i + 1], p[i + 2]);
      }
      PathDescends(g, order, p[1..], j);
    }
  }

  /** Dependencies come first exactly when `extends` has no cycle. */
  lemma DependenciesFirstIffAcyclic(g: Graph, roots: seq<string>)
    requires Elems(roots) == g.Keys
    ensures DependenciesFirst(g, Order(g, roots)) <==> Acyclic(g)
  {
    OrderComplete(g, roots);
    var order := Order(g, roots);
    if DependenciesFirst(g, order) {
      forall a, b | Edge(g, a, b) ensures !Reaches(g, b, a) {
        assert a in Elems(order);
        var k :| 0 <= k < |order| && order[k] == a;
        var j :| 0 <= j < k && order[j] == b;
        if Reaches(g, b, a) {
          var p :| PathFrom(g, p, b, a);
          PathDescends(g, order, p, j);
        }
      }
    }
  }

  /** When no pack extends another, the order is the root list itself. */
  lemma {:induction false} FlatOrder(g: Graph, roots: seq<string>, w: Walk)
    requires forall a, b :: Edge(g, a, b) ==> a == b
    requires forall n :: n in roots ==> n in g
    requires NoDup(roots) && forall n :: n in roots ==> n !in w.visited
    ensures AfterVisitAll(g, roots, w).order == w.order + roots
  {
    if roots != [] {
      var n := roots[0];
      var w1 := w.(visited := w.visited + {n});
      forall d | d in g[n] && d in g ensures d in w1.visited { assert Edge(g, n, d); }
      NothingToVisit(g, g[n], w1);
      FlatOrder(g, roots[1..], AfterVisit(g, n, w));
      assert [n] + roots[1..] == roots;
    }
  }

  lemma {:induction false} NothingToVisit(g: Graph, names: seq<string>, w: Walk)
    requires forall n :: n in names && n in g ==> n in w.visited
    ensures AfterVisitAll(g, names, w) == w
  {
    if names != [] {
      NothingToVisit(g, names[1..], w);
    }
  }

  // ---------- the order among packs that do not depend on each other ----------

  /** Present dependencies of every listed pack have been visited. */
  ghost predicate DepsVisited(g: Graph, w: Walk) {
    forall k, d :: 0 <= k < |w.order| && Edge(g, w.order[k], d) ==> d in w.visited
  }

  lemma {:induction false} VisitCloses(g: Graph, n: string, w: Walk)
    requires DepsVisited(g, w)
    ensures DepsVisited(g, AfterVisit(g, n, w)) && w.order <= AfterVisit(g, n, w).order
    decreases Unseen(g, w), 0
  {
    if n !in w.visited && n in g {
      var w1 := w.(visited := w.visited + {n});
      UnseenShrinks(g, w, w1);
      VisitAllCloses(g, g[n], w1);
    }
  }

  lemma {:induction false} VisitAllCloses(g: Graph, names: seq<string>, w: Walk)
    requires DepsVisited(g, w)
    ensures DepsVisited(g, AfterVisitAll(g, names, w)) && w.order <= AfterVisitAll(g, names, w).order
    decreases Unseen(g, w), 1 + |names|
  {
    if names != [] {
      var w1 := if names[0] in g then AfterVisit(g, names[0], w) else w;
      if names[0] in g {
        VisitCloses(g, names[0], w);
      }
      UnseenShrinks(g, w, w1);
      VisitAllCloses(g, names[1..], w1);
    }
  }

  ghost predicate ReachedFrom(g: Graph, names: seq<string>, x: string) {
    exists m :: m in names && m in g && Reaches(g, m, x)
  }

  lemma {:induction false} VisitSound(g: Graph, n: string, w: Walk, x: string)
    requires x in AfterVisit(g, n, w).visited && x !in w.visited
    ensures Reaches(g, n, x)
    decreases Unseen(g, w), 0
  {
    ReachesSelf(g, n);
    if n in g && x != n {
      var w1 := w.(visited := w.visited + {n});
      UnseenShrinks(g, w, w1);
      VisitAllSound(g, g[n], w1, x);
      var m :| m in g[n] && m in g && Reaches(g, m, x);
      PrependEdge(g, n, m, x);
    }
  }

  lemma {:induction false} VisitAllSound(g: Graph, names: seq<string>, w: Walk, x: string)
    requires x in AfterVisitAll(g, names, w).visited && x !in w.visited
    ensures ReachedFrom(g, names, x)
    decreases Unseen(g, w), 1 + |names|
  {
    var w1 := if names[0] in g then AfterVisit(g, names[0], w) else w;
    UnseenShrinks(g, w, w1);
    if x in w1.visited {
      VisitSound(g, names[0], w, x);
    } else {
      VisitAllSound(g, names[1..], w1, x);
      var m :| m in names[1..] && m in g && Reaches(g, m, x);
    }
  }

  lemma {:induction false} VisitAllConcat(g: Graph, a: seq<string>, b: seq<string>, w: Walk)
    ensures AfterVisitAll(g, a + b, w) == AfterVisitAll(g, b, AfterVisitAll(g, a, w))
    decreases |a|
  {
    if a == [] {
      assert a + b == b;
    } else {
      var w1 := if a[0] in g then AfterVisit(g, a[0], w) else w;
      assert (a + b)[1..] == a[1..] + b;
      VisitAllConcat(g, a[1..], b, w1);
    }
  }

  /** A set closed under edges holds all its members reach. */
  lemma ClosedHolds(g: Graph, closed: set<string>, a: string, x: string)
    requires a in closed && Reaches(g, a, x)
    requires forall m, d :: m in closed && Edge(g, m, d) ==> d in closed
    ensures x in closed
  {
    var p :| PathFrom(g, p, a, x);
    for i := 1 to |p|
      invariant p[i - 1] in closed
    {
      assert Edge(g, p[i - 1], p[i]);
    }
  }

  /** After some of the roots the order lists exactly what they reach. */
  lemma OrderOfRoots(g: Graph, roots: seq<string>, x: string)
    requires forall n :: n in roots ==> n in g
    ensures x in Order(g, roots) <==> x in g && ReachedFrom(g, roots, x)
  {
    var w0 := Walk({}, []);
    VisitAllGood(g, roots, w0);
    VisitAllCloses(g, roots, w0);
    var r := AfterVisitAll(g, roots, w0);
    forall v | v in r.visited ensures v in Elems(r.order) { assert v !in Open(r); }
    if x in r.order {
      assert x in Elems(r.order);
      VisitAllSound(g, roots, w0, x);
    }
    if m :| m in roots && m in g && Reaches(g, m, x) {
      forall a, d | a in r.visited && Edge(g, a, d) ensures d in r.visited {
        assert a in Elems(r.order);
        var k :| 0 <= k < |r.order| && r.order[k] == a;
      }
      ClosedHolds(g, r.visited, m, x);
    }
  }

  /** The least pack name from which x can be reached. */
  ghost predicate LeastReaching(g: Graph, a: string, x: string) {
    a in g && Reaches(g, a, x) && forall m :: m in g && Reaches(g, m, x) ==> Leq(a, m)
  }

  /** Every pack has one. */
  lemma LeastExists(g: Graph, x: string) returns (a: string)
    requires x in g
    ensures LeastReaching(g, a, x)
  {
    ReachesSelf(g, x);
    var all := set m | m in g && Reaches(g, m, x);
    var names := SortedKeys(all);
    assert x in Elems(names);
    a := names[0];
    assert a in Elems(names);
    forall m | m in g && Reaches(g, m, x) ensures Leq(a, m) {
      assert m in Elems(names);
      var i :| 0 <= i < |names| && names[i] == m;
      LeqTotal(m, m);
    }
  }

  ghost predicate ComesBefore(order: seq<string>, x: string, y: string) {
    exists i, j :: 0 <= i < j < |order| && order[i] == x && order[j] == y
  }

  /** With the roots sorted by name, what a smaller name reaches first is processed first. */
  lemma SmallerRootFirst(g: Graph, roots: seq<string>, a: string, x: string, b: string, y: string)
    requires Elems(roots) == g.Keys && SortedBy(roots, Leq) && x in g && y in g
    requires LeastReaching(g, a, x) && LeastReaching(g, b, y) && Leq(a, b) && a != b
    ensures ComesBefore(Order(g, roots), x, y)
  {
    forall n | n in roots ensures n in g { assert n in Elems(roots); }
    assert a in Elems(roots);
    var k :| 0 <= k < |roots| && roots[k] == a;
    var early, late := roots[..k + 1], roots[k + 1..];
    assert roots == early + late;
    var w0 := Walk({}, []);
    VisitAllConcat(g, early, late, w0);
    VisitAllCloses(g, early, w0);
    VisitAllCloses(g, late, AfterVisitAll(g, early, w0));
    OrderOfRoots(g, early, x);
    OrderOfRoots(g, early, y);
    OrderOfRoots(g, roots, y);
    assert early[k] == a && a in early;
    assert !ReachedFrom(g, early, y) by { NotReachedEarly(g, roots, k, b, y); }
    assert b in roots by { assert b in Elems(roots); }
    PrefixComesBefore(Order(g, early), Order(g, roots), x, y);
  }

  lemma NotReachedEarly(g: Graph, roots: seq<string>, k: nat, b: string, y: string)
    requires SortedBy(roots, Leq) && k < |roots| && LeastReaching(g, b, y) && Leq(roots[k], b) && roots[k] != b
    ensures !ReachedFrom(g, roots[..k + 1], y)
  {
    LeqIsOrder();
    forall m | m in roots[..k + 1] ensures Leq(m, roots[k]) {
      var i :| 0 <= i <= k && roots[i] == m;
      LeqTotal(m, m);
    }
  }

  lemma PrefixComesBefore(init: seq<string>, order: seq<string>, x: string, y: string)
    requires init <= order && x in init && y !in init && y in order
    ensures ComesBefore(order, x, y)
  {
    var i :| 0 <= i < |init| && init[i] == x;
    var j :| 0 <= j < |order| && order[j] == y;
    assert order[i] == x && order[..|init|] == init;
  }

  lemma LaterPlace(g: Graph, roots: seq<string>, a: string, x: string, b: string, y: string, k: nat)
    requires Elems(roots) == g.Keys && SortedBy(roots, Leq) && x in g && y in g
    requires LeastReaching(g, a, x) && LeastReaching(g, b, y) && Leq(a, b) && a != b
    requires k < |Order(g, roots)| && Order(g, roots)[k] == x
    ensures exists k' :: k < k' < |Order(g, roots)| && Order(g, roots)[k'] == y
  {
    OrderComplete(g, roots);
    SmallerRootFirst(g, roots, a, x, b, y);
    var order := Order(g, roots);
    var i, j :| 0 <= i < j < |order| && order[i] == x && order[j] == y;
    assert i == k;
  }

  /** y is not reached from later names only than x is. */
  ghost predicate ReachedNoLater(g: Graph, y: string, x: string) {
    forall a, b :: LeastReaching(g, a, x) && LeastReaching(g, b, y) ==> Leq(b, a)
  }

  /** What comes last among some packs is reached no earlier than any of them. */
  lemma LastReachedLatest(g: Graph, roots: seq<string>, k: nat, k': nat)
    requires Elems(roots) == g.Keys && SortedBy(roots, Leq)
    requires k' <= k < |Order(g, roots)|
    ensures ReachedNoLater(g, Order(g, roots)[k'], Order(g, roots)[k])
  {
    OrderComplete(g, roots);
    var order := Order(g, roots);
    var x, y := order[k], order[k'];
    assert x in Elems(order) && y in Elems(order);
    forall a, b | LeastReaching(g, a, x) && LeastReaching(g, b, y) ensures Leq(b, a) {
      LeqTotal(a, b);
      if !Leq(b, a) {
        LaterPlace(g, roots, a, x, b, y, k);
      }
    }
  }
}
