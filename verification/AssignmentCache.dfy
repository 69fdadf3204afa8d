/** The Redis cache in front of the policy-assignment table
    (internal/infrastructure/persistence/postgres/redis_policy_assignment_cache.go, assignments.go). */
module AssignmentCache {
  import opened RulePacks

  /** Textual UUIDs all have the same length. */
  type Uuid = s: string | |s| == 36 witness seq(36, _ => '0')

  datatype Row = Row(
    id: Uuid, tenant: Uuid, policy: Uuid, scope: string,
    priority: int, enabled: bool, createdAt: int, updatedAt: int)

  type Table = map<Uuid, Row>

  // ---------- Postgres ----------

  predicate SameTarget(r: Row, a: Row) {
    r.tenant == a.tenant && r.scope == a.scope && r.policy == a.policy
  }

  function Upserted(pg: Table, a: Row): Option<Table> {
    if exists id :: id in pg && SameTarget(pg[id], a) then
      Some(map id | id in pg ::
        if SameTarget(pg[id], a) then pg[id].(priority := a.priority, enabled := a.enabled, updatedAt := a.updatedAt)
        else pg[id])
    else if a.id in pg then None
    else Some(pg[a.id := a])
  }

  /** Only scope, priority and enabled change; the row keeps its tenant and policy. */
  function Updated(pg: Table, a: Row, now: int): Option<Table> {
    if a.id !in pg then None
    else
      var r := pg[a.id].(scope := a.scope, priority := a.priority, enabled := a.enabled, updatedAt := now);
      if exists id :: id in pg && id != a.id && SameTarget(pg[id], r) then None
      else Some(pg[a.id := r])
  }

  function WithoutPolicy(pg: Table, tenant: Uuid, policy: Uuid): Table {
    map id | id in pg && !(pg[id].tenant == tenant && pg[id].policy == policy) :: pg[id]
  }

  function TenantRows(pg: Table, tenant: Uuid): set<Row> {
    set id | id in pg && pg[id].tenant == tenant :: pg[id]
  }

  function ScopeRows(pg: Table, tenant: Uuid, scope: string): set<Row> {
    set id | id in pg && pg[id].tenant == tenant && pg[id].scope == scope && pg[id].enabled :: pg[id]
  }

  // ---------- Redis ----------

  const TENANT_PREFIX := "assignments:tenant:"

  function TenantKey(t: Uuid): string {
    TENANT_PREFIX + t
  }

  function ScopeKey(t: Uuid, scope: string): string {
    TENANT_PREFIX + t + (":scope:" + scope)
  }

  predicate HasPrefix(s: string, p: string) {
    |p| <= |s| && s[..|p|] == p
  }

  type Cache = map<string, seq<Row>>

  function Invalidated(redis: Cache, t: Uuid): Cache {
    map k | k in redis && !HasPrefix(k, TenantKey(t)) :: redis[k]
  }

  /** How Postgres arranges a result set: any fixed function of its rows. */
  type Order = set<Row> -> seq<Row>

  datatype State = State(pg: Table, redis: Cache)

  /** Each cached collection is what Postgres would answer now. */
  ghost predicate Coherent(order: Order, s: State) {
    && (forall t: Uuid :: TenantKey(t) in s.redis ==> s.redis[TenantKey(t)] == order(TenantRows(s.pg, t)))
    && (forall t: Uuid, scope :: ScopeKey(t, scope) in s.redis ==>
         s.redis[ScopeKey(t, scope)] == order(ScopeRows(s.pg, t, scope)))
  }

  // ---------- operations ----------

  /** lookup = whether the preliminary read of the old row succeeded. */
  datatype Op =
    | Create(row: Row)
    | Update(row: Row, now: int, lookup: bool)
    | Delete(id: Uuid, lookup: bool)
    | DeleteByTenantAndPolicy(tenant: Uuid, policy: Uuid)
    | ListByTenant(tenant: Uuid)
    | ListByScope(tenant: Uuid, scope: string)
    | Expire(key: string)

  function AfterUpdate(s: State, a: Row, now: int, lookup: bool): State {
    var pg := Updated(s.pg, a, now);
    if pg.None? then s
    else
      var redis := Invalidated(s.redis, a.tenant);
      State(pg.value, if lookup && s.pg[a.id].tenant != a.tenant then Invalidated(redis, s.pg[a.id].tenant) else redis)
  }

  function AfterDelete(s: State, id: Uuid, lookup: bool): State {
    if id !in s.pg then s
    else State(s.pg - {id}, if lookup then Invalidated(s.redis, s.pg[id].tenant) else s.redis)
  }

  function Cached(redis: Cache, key: string, fromPg: seq<Row>): Cache {
    if key in redis then redis else redis[key := fromPg]
  }

  function Apply(order: Order, s: State, op: Op): State {
    match op
    case Create(a) =>
      var pg := Upserted(s.pg, a);
      if pg.None? then s else State(pg.value, Invalidated(s.redis, a.tenant))
    case Update(a, now, lookup) => AfterUpdate(s, a, now, lookup)
    case Delete(id, lookup) => AfterDelete(s, id, lookup)
    case DeleteByTenantAndPolicy(t, p) => State(WithoutPolicy(s.pg, t, p), Invalidated(s.redis, t))
    case ListByTenant(t) => s.(redis := Cached(s.redis, TenantKey(t), order(TenantRows(s.pg, t))))
    case ListByScope(t, scope) => s.(redis := Cached(s.redis, ScopeKey(t, scope), order(ScopeRows(s.pg, t, scope))))
    case Expire(k) => s.(redis := s.redis - {k})
  }

  /** The caching repository; `pg` stands for the database behind it. */
  class Repository {
    const order: Order
    var pg: Table
    var redis: Cache

    constructor (order: Order, pg: Table)
      ensures this.order == order && Snapshot() == State(pg, map[]) && Coherent(order, Snapshot())
    {
      this.order := order;
      this.pg := pg;
      redis := map[];
    }

    ghost function Snapshot(): State reads this {
      State(pg, redis)
    }

    /** SCAN for the tenant's keys and DEL each. */
    method InvalidateTenantCollections(t: Uuid)
      modifies this`redis
      ensures redis == Invalidated(old(redis), t)
    {
      var left := redis.Keys;
      while left != {}
        invariant left <= old(redis).Keys
        invariant redis == map k | k in old(redis) && (k in left || !HasPrefix(k, TenantKey(t))) :: old(redis)[k]
      {
        var key :| key in left;
        left := left - {key};
        if HasPrefix(key, TenantKey(t)) {
          redis := redis - {key};
        }
      }
    }

    method CreateAssignment(a: Row) returns (ok: bool)
      modifies this
      ensures Snapshot() == Apply(order, old(Snapshot()), Create(a)) && (ok <==> Upserted(old(pg), a).Some?)
    {
      var written := Upserted(pg, a);
      if written.None? {
        return false;
      }
      pg := written.value;
      InvalidateTenantCollections(a.tenant);
      return true;
    }

    method UpdateAssignment(a: Row, now: int, lookup: bool) returns (ok: bool)
      modifies this
      ensures Snapshot() == Apply(order, old(Snapshot()), Update(a, now, lookup)) && (ok <==> Updated(old(pg), a, now).Some?)
    {
      var oldRow := if lookup && a.id in pg then Some(pg[a.id]) else None;
      var written := Updated(pg, a, now);
      if written.None? {
        return false;
      }
      pg := written.value;
      InvalidateTenantCollections(a.tenant);
      if oldRow.Some? && oldRow.value.tenant != a.tenant {
        InvalidateTenantCollections(oldRow.value.tenant);
      }
      return true;
    }

    method DeleteAssignment(id: Uuid, lookup: bool) returns (ok: bool)
      modifies this
      ensures Snapshot() == Apply(order, old(Snapshot()), Delete(id, lookup)) && (ok <==> id in old(pg))
    {
      var row := if lookup && id in pg then Some(pg[id]) else None;
      if id !in pg {
        return false;
      }
      pg := pg - {id};
      if row.Some? {
        InvalidateTenantCollections(row.value.tenant);
      }
      return true;
    }

    method DeletePolicyOfTenant(tenant: Uuid, policy: Uuid)
      modifies this
      ensures Snapshot() == Apply(order, old(Snapshot()), DeleteByTenantAndPolicy(tenant, policy))
    {
      pg := WithoutPolicy(pg, tenant, policy);
      InvalidateTenantCollections(tenant);
    }

    /** A hit or a miss, the answer is Postgres's own. */
    method ListTenant(tenant: Uuid) returns (rows: seq<Row>)
      requires Coherent(order, Snapshot())
      modifies this
      ensures Snapshot() == Apply(order, old(Snapshot()), ListByTenant(tenant)) && Coherent(order, Snapshot())
      ensures rows == order(TenantRows(pg, tenant))
    {
      ReadKeeps(order, Snapshot(), ListByTenant(tenant));
      var key := TenantKey(tenant);
      if key in redis {
        return redis[key];
      }
      rows := order(TenantRows(pg, tenant));
      redis := redis[key := rows];
    }

    method ListScope(tenant: Uuid, scope: string) returns (rows: seq<Row>)
      requires Coherent(order, Snapshot())
      modifies this
      ensures Snapshot() == Apply(order, old(Snapshot()), ListByScope(tenant, scope)) && Coherent(order, Snapshot())
      ensures rows == order(ScopeRows(pg, tenant, scope))
    {
      ReadKeeps(order, Snapshot(), ListByScope(tenant, scope));
      var key := ScopeKey(tenant, scope);
      if key in redis {
        return redis[key];
      }
      rows := order(ScopeRows(pg, tenant, scope));
      redis := redis[key := rows];
    }
  }

  // ---------- keys ----------

  lemma KeyFacts(t: Uuid, scope: string, t': Uuid, scope': string)
    ensures TenantKey(t) == TenantKey(t') ==> t == t'
    ensures TenantKey(t) != ScopeKey(t', scope')
    ensures ScopeKey(t, scope) == ScopeKey(t', scope') ==> t == t' && scope == scope'
    ensures HasPrefix(TenantKey(t), TenantKey(t)) && HasPrefix(ScopeKey(t, scope), TenantKey(t))
  {
    var n := |TENANT_PREFIX|;
    assert TenantKey(t)[n..] == t && TenantKey(t')[n..] == t';
    var k, k' := ScopeKey(t, scope), ScopeKey(t', scope');
    assert k[n..n + 36] == t && k'[n..n + 36] == t';
    assert k[n + 36..] == ":scope:" + scope && k'[n + 36..] == ":scope:" + scope';
    assert (":scope:" + scope)[7..] == scope && (":scope:" + scope')[7..] == scope';
    assert k[..|TenantKey(t)|] == TenantKey(t);
  }

  // ---------- coherence ----------

  /** The two tables agree on every tenant but t. */
  ghost predicate OnlyTenant(pg: Table, pg': Table, t: Uuid) {
    forall u: Uuid :: u != t ==> TenantRows(pg, u) == TenantRows(pg', u)
  }

  lemma ScopeFromTenant(pg: Table, pg': Table, t: Uuid, scope: string)
    requires TenantRows(pg, t) == TenantRows(pg', t)
    ensures ScopeRows(pg, t, scope) == ScopeRows(pg', t, scope)
  {
    assert ScopeRows(pg, t, scope) == set r | r in TenantRows(pg, t) && r.scope == scope && r.enabled;
    assert ScopeRows(pg', t, scope) == set r | r in TenantRows(pg', t) && r.scope == scope && r.enabled;
  }

  /** Changing rows of one tenant is safe once its collections are dropped. */
  lemma InvalidateKeeps(order: Order, s: State, pg': Table, t: Uuid)
    requires Coherent(order, s) && OnlyTenant(s.pg, pg', t)
    ensures Coherent(order, State(pg', Invalidated(s.redis, t)))
  {
    var redis := Invalidated(s.redis, t);
    forall u: Uuid | TenantKey(u) in redis ensures redis[TenantKey(u)] == order(TenantRows(pg', u)) {
      KeyFacts(u, "", u, "");
    }
    forall u: Uuid, scope | ScopeKey(u, scope) in redis
      ensures redis[ScopeKey(u, scope)] == order(ScopeRows(pg', u, scope))
    {
      KeyFacts(u, scope, u, scope);
      ScopeFromTenant(s.pg, pg', u, scope);
    }
  }

  lemma DropKeeps(order: Order, s: State, redis: Cache)
    requires Coherent(order, s) && redis.Keys <= s.redis.Keys && forall k :: k in redis ==> redis[k] == s.redis[k]
    ensures Coherent(order, s.(redis := redis))
  {
  }

  lemma CreateTouchesOneTenant(pg: Table, a: Row)
    requires Upserted(pg, a).Some?
    ensures OnlyTenant(pg, Upserted(pg, a).value, a.tenant)
  {
    var pg' := Upserted(pg, a).value;
    forall u: Uuid | u != a.tenant ensures TenantRows(pg, u) == TenantRows(pg', u) {
      forall r ensures r in TenantRows(pg, u) <==> r in TenantRows(pg', u) {
        if r in TenantRows(pg, u) {
          var id :| id in pg && pg[id].tenant == u && pg[id] == r;
          assert id in pg' && pg'[id] == r;
        }
        if r in TenantRows(pg', u) {
          var id :| id in pg' && pg'[id].tenant == u && pg'[id] == r;
          assert id in pg && pg[id] == r;
        }
      }
    }
  }

  lemma PutTouchesOneTenant(pg: Table, id: Uuid, r: Row)
    requires id in pg && r.tenant == pg[id].tenant
    ensures OnlyTenant(pg, pg[id := r], r.tenant)
  {
    var pg' := pg[id := r];
    forall u: Uuid | u != r.tenant ensures TenantRows(pg, u) == TenantRows(pg', u) {
      forall x ensures x in TenantRows(pg, u) <==> x in TenantRows(pg', u) {
        if x in TenantRows(pg, u) {
          var k :| k in pg && pg[k].tenant == u && pg[k] == x;
          assert k in pg' && pg'[k] == x;
        }
      }
    }
  }

  lemma RemoveTouchesOneTenant(pg: Table, pg': Table, t: Uuid)
    requires pg'.Keys <= pg.Keys && (forall k :: k in pg' ==> pg'[k] == pg[k])
    requires forall k :: k in pg && k !in pg' ==> pg[k].tenant == t
    ensures OnlyTenant(pg, pg', t)
  {
    forall u: Uuid | u != t ensures TenantRows(pg, u) == TenantRows(pg', u) {
      forall x ensures x in TenantRows(pg, u) <==> x in TenantRows(pg', u) {
        if x in TenantRows(pg, u) {
          var k :| k in pg && pg[k].tenant == u && pg[k] == x;
          assert k in pg' && pg'[k] == x;
        }
      }
    }
  }

  lemma UpdateKeeps(order: Order, s: State, a: Row, now: int)
    requires Coherent(order, s)
    ensures Coherent(order, AfterUpdate(s, a, now, true))
  {
    var pg := Updated(s.pg, a, now);
    if pg.Some? {
      var t := s.pg[a.id].tenant;
      PutTouchesOneTenant(s.pg, a.id, pg.value[a.id]);
      if t == a.tenant {
        InvalidateKeeps(order, s, pg.value, t);
      } else {
        var redis := Invalidated(s.redis, a.tenant);
        DropKeeps(order, s, redis);
        InvalidateKeeps(order, s.(redis := redis), pg.value, t);
      }
    }
  }

  lemma ReadKeeps(order: Order, s: State, op: Op)
    requires Coherent(order, s) && (op.ListByTenant? || op.ListByScope? || op.Expire?)
    ensures Coherent(order, Apply(order, s, op))
  {
    var redis := Apply(order, s, op).redis;
    if !op.Expire? {
      forall t: Uuid | TenantKey(t) in redis ensures redis[TenantKey(t)] == order(TenantRows(s.pg, t)) {
        KeyFacts(t, "", op.tenant, if op.ListByScope? then op.scope else "");
      }
      forall t: Uuid, scope | ScopeKey(t, scope) in redis
        ensures redis[ScopeKey(t, scope)] == order(ScopeRows(s.pg, t, scope))
      {
        KeyFacts(t, scope, op.tenant, if op.ListByScope? then op.scope else "");
        KeyFacts(op.tenant, "", t, scope);
      }
    }
  }

  /** The preliminary read succeeded, or nothing depends on it: the row is not there, or an update
      names its own tenant. */
  predicate Informed(s: State, op: Op) {
    match op
    case Update(a, _, lookup) => lookup || a.id !in s.pg || s.pg[a.id].tenant == a.tenant
    case Delete(id, lookup) => lookup || id !in s.pg
    case _ => true
  }

  lemma StepKeepsCoherent(order: Order, s: State, op: Op)
    requires Coherent(order, s) && Informed(s, op)
    ensures Coherent(order, Apply(order, s, op))
  {
    match op
    case Create(a) =>
      if Upserted(s.pg, a).Some? {
        CreateTouchesOneTenant(s.pg, a);
        InvalidateKeeps(order, s, Upserted(s.pg, a).value, a.tenant);
      }
    case Update(a, now, lookup) =>
      UpdateKeeps(order, s, a, now);
      assert AfterUpdate(s, a, now, lookup) == AfterUpdate(s, a, now, true);
    case Delete(id, lookup) =>
      if id in s.pg {
        RemoveTouchesOneTenant(s.pg, s.pg - {id}, s.pg[id].tenant);
        InvalidateKeeps(order, s, s.pg - {id}, s.pg[id].tenant);
      }
    case DeleteByTenantAndPolicy(t, p) =>
      RemoveTouchesOneTenant(s.pg, WithoutPolicy(s.pg, t, p), t);
      InvalidateKeeps(order, s, WithoutPolicy(s.pg, t, p), t);
    case _ => ReadKeeps(order, s, op);
  }

  ghost function Run(order: Order, s: State, ops: seq<Op>): State
    decreases |ops|
  {
    if ops == [] then s else Run(order, Apply(order, s, ops[0]), ops[1..])
  }

  ghost predicate InformedRun(order: Order, s: State, ops: seq<Op>)
    decreases |ops|
  {
    ops == [] || (Informed(s, ops[0]) && InformedRun(order, Apply(order, s, ops[0]), ops[1..]))
  }

  /** After every sequential history each cached collection equals Postgres's answer. */
  lemma {:induction false} HistoryKeepsCoherent(order: Order, s: State, ops: seq<Op>)
    requires Coherent(order, s) && InformedRun(order, s, ops)
    ensures Coherent(order, Run(order, s, ops))
    decreases |ops|
  {
    if ops != [] {
      StepKeepsCoherent(order, s, ops[0]);
      HistoryKeepsCoherent(order, Apply(order, s, ops[0]), ops[1..]);
    }
  }

  /** A delete whose preliminary read failed invalidates nothing. It leaves the cache right
      exactly when no cached collection shows the deleted row. */
  lemma BlindDeleteCoherentIff(order: Order, s: State, id: Uuid)
    requires Coherent(order, s) && id in s.pg && Keyed(s.pg)
    requires forall a, b :: order(a) == order(b) ==> a == b
    ensures var r := s.pg[id];
      Coherent(order, AfterDelete(s, id, false)) <==>
        TenantKey(r.tenant) !in s.redis && (r.enabled ==> ScopeKey(r.tenant, r.scope) !in s.redis)
  {
    var r, pg' := s.pg[id], s.pg - {id};
    assert r !in TenantRows(pg', r.tenant) && r !in ScopeRows(pg', r.tenant, r.scope);
    assert r in TenantRows(s.pg, r.tenant);
    assert r.enabled ==> r in ScopeRows(s.pg, r.tenant, r.scope);
    RemoveTouchesOneTenant(s.pg, pg', r.tenant);
    forall t: Uuid, scope | t != r.tenant || scope != r.scope || !r.enabled
      ensures ScopeRows(pg', t, scope) == ScopeRows(s.pg, t, scope)
    {
      ScopeUnaffected(s.pg, id, t, scope);
    }
  }

  /** List a tenant with one assignment, then delete the assignment without having read it: the
      cached list still shows it. */
  lemma StaleAfterBlindDelete(order: Order, r: Row)
    requires order({r}) != order({})
    ensures !Coherent(order, Run(order, State(map[r.id := r], map[]), [ListByTenant(r.tenant), Delete(r.id, false)]))
  {
    var pg: Table := map[r.id := r];
    assert r in TenantRows(pg, r.tenant) by { assert r.id in pg && pg[r.id] == r; }
    assert TenantRows(pg, r.tenant) == {r};
    var s := State(pg, map[TenantKey(r.tenant) := order({r})]);
    var ops := [ListByTenant(r.tenant), Delete(r.id, false)];
    assert Apply(order, State(pg, map[]), ops[0]) == s;
    assert ops[1..] == [Delete(r.id, false)] && ops[1..][1..] == [];
    var s' := State(map[], s.redis);
    assert Apply(order, s, ops[1]) == s' by { assert pg - {r.id} == map[]; }
    assert Run(order, s', []) == s' && Run(order, s, ops[1..]) == s';
    assert TenantRows(s'.pg, r.tenant) == {};
    assert TenantKey(r.tenant) in s'.redis;
  }

  lemma ScopeUnaffected(pg: Table, id: Uuid, t: Uuid, scope: string)
    requires id in pg && (t != pg[id].tenant || scope != pg[id].scope || !pg[id].enabled)
    ensures ScopeRows(pg - {id}, t, scope) == ScopeRows(pg, t, scope)
  {
    var pg' := pg - {id};
    forall x ensures x in ScopeRows(pg', t, scope) <==> x in ScopeRows(pg, t, scope) {
      if x in ScopeRows(pg, t, scope) {
        var k :| k in pg && pg[k].tenant == t && pg[k].scope == scope && pg[k].enabled && pg[k] == x;
        assert k in pg' && pg'[k] == x;
      }
    }
  }

  lemma ForeignKeys(t: Uuid, u: Uuid, scope: string)
    requires t != u
    ensures !HasPrefix(TenantKey(t), TenantKey(u)) && !HasPrefix(ScopeKey(t, scope), TenantKey(u))
  {
    var n := |TENANT_PREFIX|;
    assert TenantKey(t)[n..n + 36] == t && ScopeKey(t, scope)[n..n + 36] == t && TenantKey(u)[n..n + 36] == u;
  }

  /** The row is listed in this enabled-by-scope collection. */
  predicate ListedIn(r: Row, t: Uuid, scope: string) {
    r.tenant == t && r.scope == scope && r.enabled
  }

  ghost predicate Keyed(pg: Table) {
    forall k :: k in pg ==> pg[k].id == k
  }

  lemma ReplaceChangesIff(pg: Table, r: Row, t: Uuid, scope: string)
    requires Keyed(pg) && r.id in pg && r != pg[r.id] && r.tenant == pg[r.id].tenant
    ensures ScopeRows(pg[r.id := r], t, scope) != ScopeRows(pg, t, scope) <==>
      ListedIn(pg[r.id], t, scope) || ListedIn(r, t, scope)
    ensures TenantRows(pg[r.id := r], t) != TenantRows(pg, t) <==> t == r.tenant
  {
    var pg', o := pg[r.id := r], pg[r.id];
    assert o !in ScopeRows(pg', t, scope) && r !in ScopeRows(pg, t, scope);
    assert o !in TenantRows(pg', t) && r !in TenantRows(pg, t);
    assert ListedIn(r, t, scope) ==> pg'[r.id] in ScopeRows(pg', t, scope);
    assert ListedIn(o, t, scope) ==> o in ScopeRows(pg, t, scope);
    assert t == r.tenant ==> o in TenantRows(pg, t);
    if t != r.tenant {
      PutTouchesOneTenant(pg, r.id, r);
    }
    if !ListedIn(o, t, scope) && !ListedIn(r, t, scope) {
      forall x ensures x in ScopeRows(pg', t, scope) <==> x in ScopeRows(pg, t, scope) {
        if x in ScopeRows(pg, t, scope) {
          var k :| k in pg && pg[k].tenant == t && pg[k].scope == scope && pg[k].enabled && pg[k] == x;
          assert k in pg' && pg'[k] == x;
        }
      }
    }
  }

  /** An update that names a wrong tenant and could not read the old row invalidates only that
      tenant. It leaves the cache right exactly when no collection showing the row is cached. */
  lemma BlindUpdateCoherentIff(order: Order, s: State, a: Row, now: int, r: Row)
    requires Coherent(order, s) && Keyed(s.pg) && Updated(s.pg, a, now).Some?
    requires r == Updated(s.pg, a, now).value[a.id] && r != s.pg[a.id] && r.tenant != a.tenant
    requires forall x, y :: order(x) == order(y) ==> x == y
    ensures var o := s.pg[a.id];
      Coherent(order, AfterUpdate(s, a, now, false)) <==>
        TenantKey(r.tenant) !in s.redis && (o.enabled ==> ScopeKey(r.tenant, o.scope) !in s.redis) &&
        (r.enabled ==> ScopeKey(r.tenant, r.scope) !in s.redis)
  {
    var s' := AfterUpdate(s, a, now, false);
    var t, o := r.tenant, s.pg[a.id];
    assert s'.pg == s.pg[r.id := r];
    forall u: Uuid ensures TenantRows(s'.pg, u) != TenantRows(s.pg, u) <==> u == t {
      ReplaceChangesIff(s.pg, r, u, "");
    }
    forall u: Uuid, scope: string ensures ScopeRows(s'.pg, u, scope) != ScopeRows(s.pg, u, scope) <==>
      ListedIn(o, u, scope) || ListedIn(r, u, scope)
    {
      ReplaceChangesIff(s.pg, r, u, scope);
    }
    ForeignKeys(t, a.tenant, o.scope);
    ForeignKeys(t, a.tenant, r.scope);
    if !Coherent(order, s') {
      StaleMeansShown(order, s, s', o, r);
    }
  }

  lemma StaleMeansShown(order: Order, s: State, s': State, o: Row, r: Row)
    requires Coherent(order, s) && !Coherent(order, s') && o.tenant == r.tenant
    requires forall k :: k in s'.redis ==> k in s.redis && s.redis[k] == s'.redis[k]
    requires forall t: Uuid :: TenantRows(s'.pg, t) != TenantRows(s.pg, t) ==> t == r.tenant
    requires forall t: Uuid, scope: string :: ScopeRows(s'.pg, t, scope) != ScopeRows(s.pg, t, scope) ==>
      ListedIn(o, t, scope) || ListedIn(r, t, scope)
    ensures TenantKey(r.tenant) in s.redis || (o.enabled && ScopeKey(r.tenant, o.scope) in s.redis) ||
      (r.enabled && ScopeKey(r.tenant, r.scope) in s.redis)
  {
  }

  // ---------- what the collections answer after a write ----------

  /** The enabled rows of a scope are those of the tenant with that scope. */
  lemma ScopeRowsAre(pg: Table, t: Uuid, scope: string, r: Row)
    ensures r in ScopeRows(pg, t, scope) <==> r in TenantRows(pg, t) && r.scope == scope && r.enabled
    ensures r in TenantRows(pg, t) <==> r.tenant == t && exists id :: id in pg && pg[id] == r
  {
  }

  /** After a successful create the tenant lists an assignment with the given target, priority and flag. */
  lemma CreatedIsListed(pg: Table, a: Row) returns (r: Row)
    requires Upserted(pg, a).Some?
    ensures var pg' := Upserted(pg, a).value;
      && r in TenantRows(pg', a.tenant) && r.policy == a.policy && r.scope == a.scope
      && r.priority == a.priority && r.enabled == a.enabled
      && (r in ScopeRows(pg', a.tenant, a.scope) <==> a.enabled)
  {
    var pg' := Upserted(pg, a).value;
    var id := if k :| k in pg && SameTarget(pg[k], a) then k else a.id;
    r := pg'[id];
    ScopeRowsAre(pg', a.tenant, a.scope, r);
  }

  /** After a successful update the row shows the new scope, priority and flag under its old tenant and policy. */
  lemma UpdatedIsListed(pg: Table, a: Row, now: int)
    requires Updated(pg, a, now).Some?
    ensures var pg', o := Updated(pg, a, now).value, pg[a.id];
      var r := pg'[a.id];
      && r == o.(scope := a.scope, priority := a.priority, enabled := a.enabled, updatedAt := now)
      && r in TenantRows(pg', o.tenant) && (r in ScopeRows(pg', o.tenant, a.scope) <==> a.enabled)
      && (Keyed(pg) && r != o ==> o !in TenantRows(pg', o.tenant))
  {
    var pg', o := Updated(pg, a, now).value, pg[a.id];
    ScopeRowsAre(pg', o.tenant, a.scope, pg'[a.id]);
  }

  /** A deleted row is listed nowhere; every other row stays where it was. */
  lemma DeletedIsGone(pg: Table, id: Uuid, t: Uuid, r: Row)
    requires Keyed(pg) && id in pg
    ensures r in TenantRows(pg - {id}, t) <==> r in TenantRows(pg, t) && r.id != id
  {
    if r in TenantRows(pg, t) && r.id != id {
      var k :| k in pg && pg[k] == r;
      assert k in pg - {id};
    }
  }

  /** Deleting a policy of a tenant removes exactly that tenant's rows of that policy. */
  lemma PolicyIsGone(pg: Table, tenant: Uuid, policy: Uuid, t: Uuid, r: Row)
    ensures r in TenantRows(WithoutPolicy(pg, tenant, policy), t) <==>
      r in TenantRows(pg, t) && !(r.tenant == tenant && r.policy == policy)
  {
    if r in TenantRows(pg, t) && !(r.tenant == tenant && r.policy == policy) {
      var k :| k in pg && pg[k] == r;
      assert k in WithoutPolicy(pg, tenant, policy);
    }
  }
}
