/** Placement settings: pools, policies with table overrides, and the residency and tenant boundary. */
module Placement {
  import opened Wrappers

  datatype Store = Store(location: string, provider: string, tenant: string)

  datatype Endpoint = Endpoint(location: string, store: string, tenant: string)

  datatype Pool = Pool(identities: set<string>, location: string, store: string, connections: set<string>, patterns: seq<string>,
                       maxConcurrency: Option<nat>, tenant: string)

  datatype Policy = Policy(tenant: string, requiredPool: string, requiredLocation: string, requiredStore: string,
                           fallbackPools: seq<string>, maxConcurrency: Option<nat>, sourceMaxConcurrency: Option<nat>,
                           residency: set<string>, stagingStore: string, endpoints: seq<string>,
                           replicaStores: set<string>, cacheStores: set<string>)

  const DEFAULT_POLICY := Policy("", "", "", "", [], None, None, {}, "", [], {}, {})

  datatype Config = Config(pools: map<string, Pool>, connections: map<string, Policy>, tables: map<(string, string), Policy>,
                           stores: map<string, Store>, endpoints: map<string, Endpoint>, tenants: set<string>,
                           activeStore: string)
  {
    predicate Enabled() {
      tenants != {} || pools != map[] || connections != map[] || tables != map[]
    }
  }

  /** `allows`; `matches` is shell-style matching of a name against a pattern. */
  predicate Allows(pool: Pool, connection: string, table: string, matches: (string, string) -> bool) {
    && connection != "" && connection in pool.connections
    && (pool.patterns == [] || exists p | p in pool.patterns :: matches(table, p))
  }

  function ConnectionPolicy(c: Config, connection: string): Policy {
    if connection in c.connections then c.connections[connection] else DEFAULT_POLICY
  }

  /** The policy in force: the table override if there is one, with the source limit of the connection as default. */
  function PolicyFor(c: Config, connection: string, table: string): Policy {
    var parent := ConnectionPolicy(c, connection);
    if (connection, table) !in c.tables then parent
    else
      var policy := c.tables[(connection, table)];
      if policy.sourceMaxConcurrency.None? then policy.(sourceMaxConcurrency := parent.sourceMaxConcurrency) else policy
  }

  /** The pools a policy names, in order of preference. */
  function Targets(p: Policy): seq<string> {
    (if p.requiredPool != "" then [p.requiredPool] else []) + p.fallbackPools
  }

  function OrElse(a: string, b: string): string {
    if a != "" then a else b
  }

  predicate ValidTaskTenant(c: Config, tenant: string, p: Policy) {
    if c.tenants == {} then tenant == "" else tenant != "" && tenant == p.tenant
  }

  predicate ValidTenant(c: Config, p: Policy, connection: string) {
    c.tenants != {} ==>
      && p.tenant in c.tenants
      && (connection in c.connections ==> c.connections[connection].tenant == p.tenant)
      && (forall s | s in {p.requiredStore, p.stagingStore} + p.replicaStores + p.cacheStores - {""} ::
            s in c.stores && c.stores[s].tenant == p.tenant)
      && (forall i | 0 <= i < |Targets(p)| && Targets(p)[i] != "" ::
            Targets(p)[i] in c.pools && c.pools[Targets(p)[i]].tenant == p.tenant)
      && (forall i | 0 <= i < |p.endpoints| :: p.endpoints[i] in c.endpoints && c.endpoints[p.endpoints[i]].tenant == p.tenant)
  }

  /** The stores that a constrained policy touches, with those of the pools and endpoints it has found. */
  function ChainStores(c: Config, p: Policy): set<string>
    requires forall i | 0 <= i < |Targets(p)| :: Targets(p)[i] in c.pools
    requires forall i | 0 <= i < |p.endpoints| :: p.endpoints[i] in c.endpoints
  {
    {p.requiredStore, OrElse(p.stagingStore, p.requiredStore)} + p.replicaStores + p.cacheStores
    + (set i | 0 <= i < |Targets(p)| :: c.pools[Targets(p)[i]].store)
    + (set i | 0 <= i < |p.endpoints| :: c.endpoints[p.endpoints[i]].store)
  }

  predicate Narrows(c: Config, p: Policy, connection: string) {
    connection in c.connections && c.connections[connection].residency != {} ==>
      p.residency != {} && p.residency <= c.connections[connection].residency
  }

  predicate PoolInside(c: Config, p: Policy, pool: string) {
    pool in c.pools && c.pools[pool].location in p.residency && c.pools[pool].store != ""
  }

  predicate EndpointInside(c: Config, p: Policy, endpoint: string) {
    && endpoint in c.endpoints
    && c.endpoints[endpoint].location in p.residency
    && c.endpoints[endpoint].store in c.stores
    && c.stores[c.endpoints[endpoint].store].location == c.endpoints[endpoint].location
    && c.endpoints[endpoint].store in {p.requiredStore} + p.replicaStores
  }

  predicate StoreInside(c: Config, p: Policy, store: string) {
    store in c.stores && c.stores[store].location in p.residency
  }

  predicate ValidResidency(c: Config, p: Policy, connection: string) {
    && Narrows(c, p, connection)
    && if p.residency == {} then
         p.stagingStore == "" && p.endpoints == [] && p.replicaStores == {} && p.cacheStores == {}
       else
         && p.requiredPool != "" && p.requiredStore != "" && p.endpoints != []
         && (p.requiredLocation != "" ==> p.requiredLocation in p.residency)
         && (forall i | 0 <= i < |Targets(p)| :: PoolInside(c, p, Targets(p)[i]))
         && (forall i | 0 <= i < |p.endpoints| :: EndpointInside(c, p, p.endpoints[i]))
         && (forall s | s in ChainStores(c, p) :: StoreInside(c, p, s))
  }

  predicate OneStore(c: Config, p: Policy) {
    p.residency != {} ==>
      && c.activeStore != ""
      && p.requiredStore == c.activeStore
      && OrElse(p.stagingStore, p.requiredStore) == c.activeStore
      && forall i | 0 <= i < |Targets(p)| :: Targets(p)[i] in c.pools && c.pools[Targets(p)[i]].store == c.activeStore
  }

  predicate ValidDispatch(c: Config, p: Policy, connection: string) {
    ValidTenant(c, p, connection) && ValidResidency(c, p, connection) && OneStore(c, p)
  }

  // The residency check of the code, which collects the stores as it goes.

  method ValidateResidency(c: Config, p: Policy, connection: string) returns (ok: bool)
    ensures ok == ValidResidency(c, p, connection)
  {
    if !Narrows(c, p, connection) {
      return false;
    }
    if p.residency == {} {
      return !(p.stagingStore != "" || p.endpoints != [] || p.replicaStores != {} || p.cacheStores != {});
    }
    if p.requiredPool == "" || p.requiredStore == "" || p.endpoints == [] {
      return false;
    }
    if p.requiredLocation != "" && p.requiredLocation !in p.residency {
      return false;
    }
    var profiles := {p.requiredStore, OrElse(p.stagingStore, p.requiredStore)} + p.replicaStores + p.cacheStores;
    var targets, i := [p.requiredPool] + p.fallbackPools, 0;
    assert targets == Targets(p);
    ghost var own := profiles;
    while i < |targets|
      invariant 0 <= i <= |targets|
      invariant forall j | 0 <= j < i :: PoolInside(c, p, targets[j])
      invariant profiles == own + set j | 0 <= j < i :: c.pools[targets[j]].store
    {
      if !PoolInside(c, p, targets[i]) {
        return false;
      }
      profiles := profiles + {c.pools[targets[i]].store};
      i := i + 1;
    }
    ghost var withPools := profiles;
    i := 0;
    while i < |p.endpoints|
      invariant 0 <= i <= |p.endpoints|
      invariant forall j | 0 <= j < i :: EndpointInside(c, p, p.endpoints[j])
      invariant profiles == withPools + set j | 0 <= j < i :: c.endpoints[p.endpoints[j]].store
    {
      if !EndpointInside(c, p, p.endpoints[i]) {
        return false;
      }
      profiles := profiles + {c.endpoints[p.endpoints[i]].store};
      i := i + 1;
    }
    assert profiles == ChainStores(c, p);
    ok := forall s | s in profiles :: StoreInside(c, p, s);
  }

  // What a valid dispatch guarantees.

  /** Under a connection with residency R, a pool the policy names lies in R and writes to the active store, which lies in R. */
  lemma DispatchStaysInside(c: Config, connection: string, table: string, pool: string)
    requires ValidDispatch(c, PolicyFor(c, connection, table), connection)
    requires connection in c.connections && c.connections[connection].residency != {}
    requires pool in Targets(PolicyFor(c, connection, table))
    ensures Targets(PolicyFor(c, connection, table)) != []
    ensures pool in c.pools && c.pools[pool].location in c.connections[connection].residency
    ensures c.pools[pool].store == c.activeStore && c.activeStore in c.stores
    ensures c.stores[c.activeStore].location in c.connections[connection].residency
  {
    var p := PolicyFor(c, connection, table);
    var i :| 0 <= i < |Targets(p)| && Targets(p)[i] == pool;
    assert PoolInside(c, p, Targets(p)[i]);
    assert p.requiredStore in ChainStores(c, p);
    assert StoreInside(c, p, p.requiredStore);
  }

  // The checks, in terms of what data may pass through.

  /** The policy sends data through the pool. */
  ghost predicate Uses(p: Policy, pool: string) {
    (pool != "" && pool == p.requiredPool) || pool in p.fallbackPools
  }

  lemma TargetsAreUsed(p: Policy, pool: string)
    ensures pool in Targets(p) <==> Uses(p, pool)
  {
  }

  /** The required pool comes first, the fallbacks follow in their order. */
  lemma PrefersRequired(p: Policy)
    ensures p.requiredPool == "" ==> Targets(p) == p.fallbackPools
    ensures p.requiredPool != "" ==> Targets(p) != [] && Targets(p)[0] == p.requiredPool && Targets(p)[1..] == p.fallbackPools
  {
  }

  /** Data of the dataset is kept in the store: published, staged, copied or cached there, written by a pool or served. */
  ghost predicate Reaches(c: Config, p: Policy, store: string) {
    || store == p.requiredStore || store == p.stagingStore != "" || store in p.replicaStores || store in p.cacheStores
    || (exists pool | pool in c.pools && Uses(p, pool) :: store == c.pools[pool].store)
    || (exists e | e in c.endpoints && e in p.endpoints :: store == c.endpoints[e].store)
  }

  /** Everything the policy names is there and lies in its locations, and what it serves is published in place. */
  ghost predicate ChainInside(c: Config, p: Policy) {
    && p.requiredPool != "" && p.requiredStore != "" && p.endpoints != [] && p.requiredLocation in {""} + p.residency
    && (forall pool | Uses(p, pool) :: pool in c.pools && c.pools[pool].location in p.residency && c.pools[pool].store != "")
    && (forall e | e in p.endpoints ::
          && e in c.endpoints && c.endpoints[e].location in p.residency
          && (c.endpoints[e].store == p.requiredStore || c.endpoints[e].store in p.replicaStores)
          && c.endpoints[e].store in c.stores && c.stores[c.endpoints[e].store].location == c.endpoints[e].location)
    && (forall store | Reaches(c, p, store) :: store in c.stores && c.stores[store].location in p.residency)
  }

  lemma ChainStoresMeans(c: Config, p: Policy, store: string)
    requires p.requiredPool != "" && (forall i | 0 <= i < |Targets(p)| :: Targets(p)[i] in c.pools)
    requires forall i | 0 <= i < |p.endpoints| :: p.endpoints[i] in c.endpoints
    ensures store in ChainStores(c, p) <==> Reaches(c, p, store)
  {
    if Reaches(c, p, store) {
      if pool :| pool in c.pools && Uses(p, pool) && store == c.pools[pool].store {
        TargetsAreUsed(p, pool);
        var i :| 0 <= i < |Targets(p)| && Targets(p)[i] == pool;
      } else if e :| e in c.endpoints && e in p.endpoints && store == c.endpoints[e].store {
        var i :| 0 <= i < |p.endpoints| && p.endpoints[i] == e;
      }
    }
    if i :| 0 <= i < |Targets(p)| && store == c.pools[Targets(p)[i]].store {
      TargetsAreUsed(p, Targets(p)[i]);
    }
  }

  /**
    * A policy without locations is valid if its connection has none and it names nothing of the federated chain; one with
    * locations, if they lie within those of its connection and all data stays inside them.
    */
  lemma ResidencyMeans(c: Config, p: Policy, connection: string)
    ensures ValidResidency(c, p, connection) <==>
            && (connection in c.connections && c.connections[connection].residency != {} ==>
                  p.residency != {} && p.residency <= c.connections[connection].residency)
            && (p.residency == {} ==> p.stagingStore == "" && p.endpoints == [] && p.replicaStores == {} && p.cacheStores == {})
            && (p.residency != {} ==> ChainInside(c, p))
  {
    if p.residency != {} && p.requiredPool != "" {
      forall pool
        ensures pool in Targets(p) <==> Uses(p, pool)
      {
        TargetsAreUsed(p, pool);
      }
      hide Targets, Uses, Reaches, ChainStores;
      if (forall i | 0 <= i < |Targets(p)| :: Targets(p)[i] in c.pools)
         && forall i | 0 <= i < |p.endpoints| :: p.endpoints[i] in c.endpoints {
        forall store
          ensures store in ChainStores(c, p) <==> Reaches(c, p, store)
        {
          ChainStoresMeans(c, p, store);
        }
      }
    }
  }

  /** With tenants declared, a policy and everything it names belong to one of them, that of its connection. */
  lemma TenantMeans(c: Config, p: Policy, connection: string)
    ensures ValidTenant(c, p, connection) <==>
            (c.tenants == {}
             || (&& p.tenant in c.tenants
                 && (connection in c.connections ==> c.connections[connection].tenant == p.tenant)
                 && (forall store | store != "" && store in {p.requiredStore, p.stagingStore} + p.replicaStores + p.cacheStores ::
                       store in c.stores && c.stores[store].tenant == p.tenant)
                 && (forall pool | pool != "" && Uses(p, pool) :: pool in c.pools && c.pools[pool].tenant == p.tenant)
                 && (forall e | e in p.endpoints :: e in c.endpoints && c.endpoints[e].tenant == p.tenant)))
  {
    forall pool
      ensures pool in Targets(p) <==> Uses(p, pool)
    {
      TargetsAreUsed(p, pool);
    }
    hide Targets, Uses;
  }

  /** A constrained dispatch stages, publishes and writes in the one active store. */
  lemma DispatchMeans(c: Config, p: Policy, connection: string)
    ensures ValidDispatch(c, p, connection) <==>
            && ValidTenant(c, p, connection) && ValidResidency(c, p, connection)
            && (p.residency != {} ==>
                  && c.activeStore != "" && p.requiredStore == c.activeStore && p.stagingStore in {"", c.activeStore}
                  && forall pool | Uses(p, pool) :: pool in c.pools && c.pools[pool].store == c.activeStore)
  {
    forall pool
      ensures pool in Targets(p) <==> Uses(p, pool)
    {
      TargetsAreUsed(p, pool);
    }
    hide Targets, Uses, ValidTenant, ValidResidency;
  }

  /** The policy in force: the override of the table if there is one, with the source limit of its connection unless it has its own. */
  lemma PolicyForMeans(c: Config, connection: string, table: string)
    ensures var p, key := PolicyFor(c, connection, table), (connection, table);
            && (key !in c.tables && connection in c.connections ==> p == c.connections[connection])
            && (key !in c.tables && connection !in c.connections ==> p == Policy("", "", "", "", [], None, None, {}, "", [], {}, {}))
            && (key in c.tables ==>
                  && p.(sourceMaxConcurrency := None) == c.tables[key].(sourceMaxConcurrency := None)
                  && p.sourceMaxConcurrency ==
                     if c.tables[key].sourceMaxConcurrency.Some? then c.tables[key].sourceMaxConcurrency
                     else if connection in c.connections then c.connections[connection].sourceMaxConcurrency else None)
  {
  }

  // Loading: table overrides inherit from their connection and may only narrow it.

  datatype RawPolicy = RawPolicy(tenant: Option<string>, requiredPool: Option<string>, requiredLocation: Option<string>,
                                 requiredStore: Option<string>, fallbackPools: Option<seq<string>>,
                                 maxConcurrency: Option<Option<nat>>, sourceMaxConcurrency: Option<Option<nat>>,
                                 residency: Option<set<string>>, stagingStore: Option<string>, endpoints: Option<seq<string>>,
                                 replicaStores: Option<set<string>>, cacheStores: Option<set<string>>)

  datatype Definition = Definition(tenants: set<string>, pools: map<string, Pool>, connections: map<string, RawPolicy>,
                                   tables: map<(string, string), RawPolicy>, stores: map<string, Store>,
                                   endpoints: map<string, Endpoint>)

  function Prefer<T>(child: Option<T>, parent: Option<T>): Option<T> {
    if child.Some? then child else parent
  }

  function ValueOr<T>(o: Option<T>, default: T): T {
    if o.Some? then o.value else default
  }

  /** The fields of the child, and those of the parent that the child does not set. */
  function Merge(parent: RawPolicy, child: RawPolicy): RawPolicy {
    RawPolicy(Prefer(child.tenant, parent.tenant), Prefer(child.requiredPool, parent.requiredPool),
              Prefer(child.requiredLocation, parent.requiredLocation), Prefer(child.requiredStore, parent.requiredStore),
              Prefer(child.fallbackPools, parent.fallbackPools), Prefer(child.maxConcurrency, parent.maxConcurrency),
              Prefer(child.sourceMaxConcurrency, parent.sourceMaxConcurrency), Prefer(child.residency, parent.residency),
              Prefer(child.stagingStore, parent.stagingStore), Prefer(child.endpoints, parent.endpoints),
              Prefer(child.replicaStores, parent.replicaStores), Prefer(child.cacheStores, parent.cacheStores))
  }

  function Plain(raw: RawPolicy): Policy {
    Policy(ValueOr(raw.tenant, ""), ValueOr(raw.requiredPool, ""), ValueOr(raw.requiredLocation, ""), ValueOr(raw.requiredStore, ""),
           ValueOr(raw.fallbackPools, []), ValueOr(raw.maxConcurrency, None), ValueOr(raw.sourceMaxConcurrency, None),
           ValueOr(raw.residency, {}), ValueOr(raw.stagingStore, ""), ValueOr(raw.endpoints, []),
           ValueOr(raw.replicaStores, {}), ValueOr(raw.cacheStores, {}))
  }

  predicate Positive(limit: Option<nat>) {
    limit.Some? ==> limit.value >= 1
  }

  /** Everything belongs to one of the declared tenants, if any are declared. */
  predicate DeclaredTenant(tenants: set<string>, tenant: string) {
    if tenants == {} then tenant == "" else tenant in tenants
  }

  /** `_policy`: the fields are consistent by themselves and name known pools and tenants. */
  predicate WellDefined(p: Policy, pools: set<string>, tenants: set<string>) {
    && (p.fallbackPools != [] ==> p.requiredPool != "")
    && (forall i | 0 <= i < |Targets(p)| :: Targets(p)[i] in pools)
    && (forall i, j | 0 <= i < j < |Targets(p)| :: Targets(p)[i] != Targets(p)[j])
    && DeclaredTenant(tenants, p.tenant)
    && Positive(p.maxConcurrency) && Positive(p.sourceMaxConcurrency)
  }

  /** A table override under the policy of its connection, if it stays within it. */
  function Override(d: Definition, key: (string, string)): Option<RawPolicy>
    requires key in d.tables
  {
    var raw := d.tables[key];
    if key.0 !in d.connections then Some(raw)
    else
      var parent := Plain(d.connections[key.0]);
      var own := if parent.tenant != "" && raw.tenant.None? then raw.(tenant := Some(parent.tenant)) else raw;
      if parent.tenant != "" && own.tenant != Some(parent.tenant) then None
      else if parent.residency == {} then Some(own)
      else
        var merged := Merge(d.connections[key.0], own);
        var locations := ValueOr(merged.residency, {});
        if locations == {} || !(locations <= parent.residency) then None else Some(merged)
  }

  predicate ValidNames(d: Definition) {
    && "" !in d.tenants && "" !in d.connections && "" !in d.pools
    && forall k | k in d.tables :: k.0 != "" && k.1 != ""
  }

  /** Every pool has identities of its own, a positive limit if any, and a declared tenant. */
  predicate PoolsDefined(d: Definition) {
    && (forall k | k in d.pools ::
          d.pools[k].identities != {} && Positive(d.pools[k].maxConcurrency) && DeclaredTenant(d.tenants, d.pools[k].tenant))
    && DisjointIdentities(d.pools)
  }

  predicate DisjointIdentities(pools: map<string, Pool>) {
    forall j, k | j in pools && k in pools && j != k :: pools[j].identities !! pools[k].identities
  }

  predicate StoresDefined(d: Definition) {
    forall k | k in d.stores ::
      && k != "" && d.stores[k].location != "" && d.stores[k].provider in {"azure", "s3", "gcs", "local"}
      && DeclaredTenant(d.tenants, d.stores[k].tenant)
  }

  predicate EndpointsDefined(d: Definition) {
    forall k | k in d.endpoints ::
      k != "" && d.endpoints[k].location != "" && d.endpoints[k].store != "" && DeclaredTenant(d.tenants, d.endpoints[k].tenant)
  }

  predicate ConnectionsDefined(d: Definition) {
    forall k | k in d.connections :: WellDefined(Plain(d.connections[k]), d.pools.Keys, d.tenants)
  }

  predicate TableDefined(d: Definition, key: (string, string))
    requires key in d.tables
  {
    Override(d, key).Some? && WellDefined(Plain(Override(d, key).value), d.pools.Keys, d.tenants)
  }

  function TablePolicy(d: Definition, key: (string, string)): Policy
    requires key in d.tables && TableDefined(d, key)
  {
    Plain(Override(d, key).value)
  }

  function Assemble(d: Definition): Config
    requires forall k | k in d.tables :: TableDefined(d, k)
  {
    Config(d.pools, map k | k in d.connections :: Plain(d.connections[k]),
           map k | k in d.tables && TableDefined(d, k) :: TablePolicy(d, k), d.stores, d.endpoints, d.tenants, "")
  }

  /** A pool may only read connections of its own tenant. */
  predicate PoolsMatchConnections(c: Config) {
    c.tenants != {} ==>
      forall k | k in c.pools :: forall connection | connection in c.pools[k].connections ::
                                   connection in c.connections && c.connections[connection].tenant == c.pools[k].tenant
  }

  ghost predicate AllPolicies(c: Config, valid: (Policy) -> bool) {
    (forall k | k in c.connections :: valid(c.connections[k])) && (forall k | k in c.tables :: valid(c.tables[k]))
  }

  ghost predicate Loaded(d: Definition, c: Config) {
    && ValidNames(d) && PoolsDefined(d) && StoresDefined(d) && EndpointsDefined(d) && ConnectionsDefined(d)
    && (forall k | k in d.tables :: TableDefined(d, k))
    && c == Assemble(d)
    && AllPolicies(c, p => ValidTenant(c, p, "") && ValidResidency(c, p, ""))
    && PoolsMatchConnections(c)
  }

  /** `bind_runtime_store`: fixes the active store and checks every policy against it. */
  ghost predicate Bound(c: Config, next: Config, store: string, provider: string) {
    && next == c.(activeStore := store)
    && (store != "" ==> store in c.stores && c.stores[store].provider == provider)
    && AllPolicies(next, p => ValidDispatch(next, p, ""))
  }

  lemma SourceLimitIsIrrelevant(c: Config, p: Policy, limit: Option<nat>, connection: string)
    ensures ValidDispatch(c, p.(sourceMaxConcurrency := limit), connection) <==> ValidDispatch(c, p, connection)
  {
    var q := p.(sourceMaxConcurrency := limit);
    assert Targets(q) == Targets(p);
    assert ValidTenant(c, q, connection) <==> ValidTenant(c, p, connection);
    assert ValidResidency(c, q, connection) <==> ValidResidency(c, p, connection) by {
      assert forall pool :: PoolInside(c, q, pool) <==> PoolInside(c, p, pool);
      assert forall e :: EndpointInside(c, q, e) <==> EndpointInside(c, p, e);
      assert forall s :: StoreInside(c, q, s) <==> StoreInside(c, p, s);
    }
  }

  /** An override keeps the tenant of its connection and stays within its residency. */
  lemma OverrideStaysWithin(d: Definition, c: Config, key: (string, string))
    requires Loaded(d, c) && key in c.tables && key.0 in c.connections
    ensures c.tenants != {} ==> c.connections[key.0].tenant == c.tables[key].tenant
    ensures Narrows(c, c.tables[key], key.0)
  {
    var parent := Plain(d.connections[key.0]);
    assert c.connections[key.0] == parent;
    assert ValidTenant(c, parent, "");
  }

  lemma ValidUnderConnection(c: Config, p: Policy, connection: string)
    requires ValidDispatch(c, p, "") && "" !in c.connections
    requires connection in c.connections ==> (c.tenants != {} ==> c.connections[connection].tenant == p.tenant)
    requires Narrows(c, p, connection)
    ensures ValidDispatch(c, p, connection)
  {
  }

  lemma UnknownDataset(c: Config, connection: string)
    requires connection !in c.connections && "" !in c.tenants
    ensures ValidDispatch(c, DEFAULT_POLICY, connection) <==> c.tenants == {}
  {
  }

  /**
    * What was checked when the configuration was loaded and bound is enough for every dispatch: the check
    * at dispatch fails only for a dataset that no policy covers, and only when tenants are declared.
    */
  lemma DispatchFailsOnlyForUnknown(d: Definition, before: Config, c: Config, store: string, provider: string,
                                    connection: string, table: string)
    requires Loaded(d, before) && Bound(before, c, store, provider)
    ensures ValidDispatch(c, PolicyFor(c, connection, table), connection) <==>
            c.tenants == {} || connection in c.connections || (connection, table) in c.tables
  {
    hide ValidDispatch, Override, WellDefined;
    var key, parent := (connection, table), ConnectionPolicy(c, connection);
    if key !in c.tables && connection !in c.connections {
      UnknownDataset(c, connection);
    } else if key in c.tables {
      SourceLimitIsIrrelevant(c, c.tables[key], parent.sourceMaxConcurrency, connection);
      if connection in c.connections {
        OverrideStaysWithin(d, before, key);
      }
      assert ValidDispatch(c, c.tables[key], "");
      ValidUnderConnection(c, c.tables[key], connection);
    } else {
      assert ValidDispatch(c, c.connections[connection], "");
      assert Narrows(c, c.connections[connection], connection);
      ValidUnderConnection(c, c.connections[connection], connection);
    }
  }

  lemma PoolsMatchWhenBound(d: Definition, before: Config, c: Config, store: string, provider: string)
    requires Loaded(d, before) && Bound(before, c, store, provider)
    ensures PoolsMatchConnections(c)
  {
    assert PoolsMatchConnections(before);
  }

  /**
    * With tenants declared, task, policy and pool share one tenant; so does the store if the policy names
    * the store it requires.
    */
  lemma DispatchSharesTenant(c: Config, connection: string, table: string, tenant: string, pool: string)
    requires PoolsMatchConnections(c) && c.tenants != {}
    requires ValidTaskTenant(c, tenant, PolicyFor(c, connection, table))
    requires ValidDispatch(c, PolicyFor(c, connection, table), connection)
    requires pool in c.pools && connection in c.pools[pool].connections
    ensures tenant in c.tenants && PolicyFor(c, connection, table).tenant == tenant
    ensures c.pools[pool].tenant == tenant
    ensures var p := PolicyFor(c, connection, table);
            p.requiredStore != "" && c.pools[pool].store == p.requiredStore ==>
              c.pools[pool].store in c.stores && c.stores[c.pools[pool].store].tenant == tenant
  {
    hide ValidResidency, OneStore, PolicyFor;
    var p := PolicyFor(c, connection, table);
    assert p.requiredStore != "" ==> p.requiredStore in {p.requiredStore, p.stagingStore} + p.replicaStores + p.cacheStores - {""};
  }

  /** The pool may take the dataset without the policy saying which store it must write to. */
  predicate Unpinned(c: Config, matches: (string, string) -> bool, pool: string, connection: string, table: string) {
    var p := PolicyFor(c, connection, table);
    && pool in c.pools && Allows(c.pools[pool], connection, table, matches)
    && p.requiredStore == ""
    && (p.requiredLocation == "" || p.requiredLocation == c.pools[pool].location)
    && (Targets(p) == [] || pool in Targets(p))
  }

  predicate OwnStore(c: Config, pool: string)
    requires pool in c.pools
  {
    c.pools[pool].store in c.stores && c.stores[c.pools[pool].store].tenant == c.pools[pool].tenant
  }

  /** Every pool that may take some dataset unpinned writes to a declared store of its own tenant. */
  ghost predicate StoresMatch(c: Config, matches: (string, string) -> bool) {
    forall pool, connection, table | Unpinned(c, matches, pool, connection, table) :: OwnStore(c, pool)
  }

  /** A configuration that loads and binds although its pool, unpinned, writes to the store of another tenant. */
  lemma ForeignStore() returns (d: Definition, before: Config, c: Config)
    ensures Loaded(d, before) && Bound(before, c, "", "") && c.tenants == {"a", "b"}
    ensures forall matches :: Unpinned(c, matches, "p", "db", "t")
    ensures "p" in c.pools && "db" in c.pools["p"].connections && c.pools["p"].tenant == "a"
    ensures c.pools["p"].store in c.stores && c.stores[c.pools["p"].store].tenant == "b"
  {
    hide ValidTenant, ValidResidency, OneStore, WellDefined;
    var raw := RawPolicy(Some("a"), None, None, None, None, None, None, None, None, None, None, None);
    var pool := Pool({"agent"}, "eu", "s", {"db"}, [], None, "a");
    d := Definition({"a", "b"}, map["p" := pool], map["db" := raw], map[], map["s" := Store("eu", "local", "b")], map[]);
    before := Assemble(d);
    c := before;
    UnconstrainedPolicy(d.pools.Keys, c);
    assert PoolsDefined(d) && StoresDefined(d) && EndpointsDefined(d) && ConnectionsDefined(d);
    hide PoolsDefined, StoresDefined, EndpointsDefined, ConnectionsDefined;
    assert AllPolicies(before, p => ValidTenant(before, p, "") && ValidResidency(before, p, ""));
    assert AllPolicies(c, p => ValidDispatch(c, p, ""));
  }

  lemma UnconstrainedPolicy(pools: set<string>, c: Config)
    requires "a" in c.tenants && "" !in c.connections
    ensures var p := DEFAULT_POLICY.(tenant := "a");
            && WellDefined(p, pools, c.tenants)
            && ValidDispatch(c, p, "")
  {
  }

  // The loading loops.

  method BuildConnections(d: Definition) returns (r: Option<map<string, Policy>>)
    ensures r == if ConnectionsDefined(d) then Some(map k | k in d.connections :: Plain(d.connections[k])) else None
  {
    hide WellDefined, Plain;
    var connections: map<string, Policy> := map[];
    var rest := d.connections.Keys;
    while rest != {}
      invariant rest <= d.connections.Keys && connections.Keys == d.connections.Keys - rest
      invariant forall k | k in connections ::
                  connections[k] == Plain(d.connections[k]) && WellDefined(Plain(d.connections[k]), d.pools.Keys, d.tenants)
    {
      var key :| key in rest;
      var policy := Plain(d.connections[key]);
      if !WellDefined(policy, d.pools.Keys, d.tenants) {
        return None;
      }
      connections := connections[key := policy];
      rest := rest - {key};
    }
    assert connections == map k | k in d.connections :: Plain(d.connections[k]);
    return Some(connections);
  }

  method BuildTables(d: Definition) returns (r: Option<map<(string, string), Policy>>)
    ensures r.Some? <==> forall k | k in d.tables :: TableDefined(d, k)
    ensures r.Some? ==> r.value == Assemble(d).tables
  {
    hide WellDefined, Plain, Override;
    var tables: map<(string, string), Policy> := map[];
    var rest := d.tables.Keys;
    while rest != {}
      invariant rest <= d.tables.Keys
      invariant tables.Keys == d.tables.Keys - rest
      invariant forall k | k in tables :: TableDefined(d, k) && tables[k] == TablePolicy(d, k)
    {
      var key :| key in rest;
      if !TableDefined(d, key) {
        return None;
      }
      tables := tables[key := TablePolicy(d, key)];
      rest := rest - {key};
    }
    assert tables == Assemble(d).tables;
    return Some(tables);
  }

  /** The pool loop, which collects the identities it has seen. */
  method CheckPools(d: Definition) returns (ok: bool)
    ensures ok == PoolsDefined(d)
  {
    var identities: set<string> := {};
    var rest := d.pools.Keys;
    while rest != {}
      invariant rest <= d.pools.Keys
      invariant forall i :: i in identities <==> exists k | k in d.pools && k !in rest :: i in d.pools[k].identities
      invariant forall k | k in d.pools && k !in rest ::
                  d.pools[k].identities != {} && Positive(d.pools[k].maxConcurrency) && DeclaredTenant(d.tenants, d.pools[k].tenant)
      invariant forall j, k | j in d.pools && k in d.pools && j !in rest && k !in rest && j != k ::
                  d.pools[j].identities !! d.pools[k].identities
    {
      var key :| key in rest;
      var pool := d.pools[key];
      if pool.identities == {} || !(identities !! pool.identities)
         || !Positive(pool.maxConcurrency) || !DeclaredTenant(d.tenants, pool.tenant) {
        assert !(identities !! pool.identities) ==> exists i :: i in identities && i in pool.identities;
        return false;
      }
      identities := identities + pool.identities;
      rest := rest - {key};
    }
    return true;
  }

  /** `from_dict` accepts exactly the definitions that `Loaded` describes. */
  method FromDict(d: Definition) returns (r: Option<Config>)
    ensures r.Some? ==> Loaded(d, r.value)
    ensures r.None? ==> forall c :: !Loaded(d, c)
  {
    hide WellDefined, Override, Plain, ValidResidency, ValidTenant, PoolsDefined, StoresDefined, EndpointsDefined;
    if !ValidNames(d) {
      return None;
    }
    var poolsOk := CheckPools(d);
    if !poolsOk || !StoresDefined(d) || !EndpointsDefined(d) {
      return None;
    }
    var connections := BuildConnections(d);
    if connections.None? {
      return None;
    }
    var tables := BuildTables(d);
    if tables.None? {
      return None;
    }
    var c := Config(d.pools, connections.value, tables.value, d.stores, d.endpoints, d.tenants, "");
    if !(&& (forall k | k in c.connections :: ValidTenant(c, c.connections[k], "") && ValidResidency(c, c.connections[k], ""))
         && (forall k | k in c.tables :: ValidTenant(c, c.tables[k], "") && ValidResidency(c, c.tables[k], ""))
         && PoolsMatchConnections(c)) {
      return None;
    }
    return Some(c);
  }

  // What loading means for the definition.

  /** Stores, endpoints and pools are named, placed and of a known provider, tenants are declared, identities and limits sound. */
  lemma DefinitionMeans(d: Definition)
    ensures ValidNames(d) && PoolsDefined(d) && StoresDefined(d) && EndpointsDefined(d) <==>
            && "" !in d.tenants && "" !in d.connections && "" !in d.pools && "" !in d.stores && "" !in d.endpoints
            && (forall k | k in d.tables :: k.0 != "" && k.1 != "")
            && (forall k | k in d.pools ::
                  && d.pools[k].identities != {} && d.pools[k].maxConcurrency != Some(0)
                  && (if d.tenants == {} then d.pools[k].tenant == "" else d.pools[k].tenant in d.tenants))
            && (forall j, k, id | j in d.pools && k in d.pools && id in d.pools[j].identities && id in d.pools[k].identities :: j == k)
            && (forall k | k in d.stores ::
                  && d.stores[k].location != "" && d.stores[k].provider in {"azure", "s3", "gcs", "local"}
                  && (if d.tenants == {} then d.stores[k].tenant == "" else d.stores[k].tenant in d.tenants))
            && (forall k | k in d.endpoints ::
                  && d.endpoints[k].location != "" && d.endpoints[k].store != ""
                  && (if d.tenants == {} then d.endpoints[k].tenant == "" else d.endpoints[k].tenant in d.tenants))
  {
    assert DisjointIdentities(d.pools) <==>
           forall j, k, id | j in d.pools && k in d.pools && id in d.pools[j].identities && id in d.pools[k].identities :: j == k;
  }

  /** A policy names known pools, each once, prefers one before it falls back, and has a declared tenant and positive limits. */
  lemma WellDefinedMeans(p: Policy, pools: set<string>, tenants: set<string>)
    ensures WellDefined(p, pools, tenants) <==>
            && (p.fallbackPools != [] ==> p.requiredPool != "")
            && (p.requiredPool != "" ==> p.requiredPool in pools && p.requiredPool !in p.fallbackPools)
            && (forall pool | pool in p.fallbackPools :: pool in pools)
            && (forall i, j | 0 <= i < j < |p.fallbackPools| :: p.fallbackPools[i] != p.fallbackPools[j])
            && (if tenants == {} then p.tenant == "" else p.tenant in tenants)
            && p.maxConcurrency != Some(0) && p.sourceMaxConcurrency != Some(0)
  {
    var targets := Targets(p);
    forall pool
      ensures pool in targets <==> Uses(p, pool)
    {
      TargetsAreUsed(p, pool);
    }
    assert (forall i | 0 <= i < |targets| :: targets[i] in pools) <==> (forall pool | Uses(p, pool) :: pool in pools);
    if p.requiredPool == "" {
      assert targets == p.fallbackPools;
    } else {
      ConsIsDistinct(p.requiredPool, p.fallbackPools);
      assert targets == [p.requiredPool] + p.fallbackPools;
    }
  }

  lemma ConsIsDistinct(x: string, s: seq<string>)
    ensures (forall i, j | 0 <= i < j < |[x] + s| :: ([x] + s)[i] != ([x] + s)[j]) <==>
            x !in s && forall i, j | 0 <= i < j < |s| :: s[i] != s[j]
  {
    var all := [x] + s;
    assert all[1..] == s;
    if forall i, j | 0 <= i < j < |all| :: all[i] != all[j] {
      forall i, j | 0 <= i < j < |s|
        ensures s[i] != s[j] && s[j] != x && s[i] != x
      {
        assert s[i] == all[i + 1] && s[j] == all[j + 1] && all[0] == x;
      }
      assert s != [] ==> all[1] != all[0];
    }
  }

  /** `own` is the field if the override sets it, otherwise that of the connection, otherwise the default. */
  ghost predicate Inherited<T>(value: T, own: Option<T>, parent: Option<T>, default: T) {
    value == if own.Some? then own.value else if parent.Some? then parent.value else default
  }

  /** Every field is the one set, otherwise that of `parent`, otherwise the default. */
  ghost predicate Fills(raw: RawPolicy, parent: RawPolicy, p: Policy) {
    && Inherited(p.tenant, raw.tenant, parent.tenant, "") && Inherited(p.requiredPool, raw.requiredPool, parent.requiredPool, "")
    && Inherited(p.requiredLocation, raw.requiredLocation, parent.requiredLocation, "")
    && Inherited(p.requiredStore, raw.requiredStore, parent.requiredStore, "")
    && Inherited(p.fallbackPools, raw.fallbackPools, parent.fallbackPools, [])
    && Inherited(p.maxConcurrency, raw.maxConcurrency, parent.maxConcurrency, None)
    && Inherited(p.sourceMaxConcurrency, raw.sourceMaxConcurrency, parent.sourceMaxConcurrency, None)
    && Inherited(p.residency, raw.residency, parent.residency, {})
    && Inherited(p.stagingStore, raw.stagingStore, parent.stagingStore, "")
    && Inherited(p.endpoints, raw.endpoints, parent.endpoints, [])
    && Inherited(p.replicaStores, raw.replicaStores, parent.replicaStores, {})
    && Inherited(p.cacheStores, raw.cacheStores, parent.cacheStores, {})
  }

  const UNSET := RawPolicy(None, None, None, None, None, None, None, None, None, None, None, None)

  lemma FieldFills<T>(own: Option<T>, parent: Option<T>, default: T)
    ensures Inherited(ValueOr(own, default), own, None, default)
    ensures Inherited(ValueOr(Prefer(own, parent), default), own, parent, default)
  {
  }

  lemma PlainFills(raw: RawPolicy, parent: RawPolicy)
    ensures Fills(raw, UNSET, Plain(raw)) && Fills(raw, parent, Plain(Merge(parent, raw)))
  {
    hide Inherited, ValueOr, Prefer;
    FieldFills(raw.tenant, parent.tenant, "");
    FieldFills(raw.requiredPool, parent.requiredPool, "");
    FieldFills(raw.requiredLocation, parent.requiredLocation, "");
    FieldFills(raw.requiredStore, parent.requiredStore, "");
    FieldFills(raw.fallbackPools, parent.fallbackPools, []);
    FieldFills(raw.maxConcurrency, parent.maxConcurrency, None);
    FieldFills(raw.sourceMaxConcurrency, parent.sourceMaxConcurrency, None);
    FieldFills(raw.residency, parent.residency, {});
    FieldFills(raw.stagingStore, parent.stagingStore, "");
    FieldFills(raw.endpoints, parent.endpoints, []);
    FieldFills(raw.replicaStores, parent.replicaStores, {});
    FieldFills(raw.cacheStores, parent.cacheStores, {});
  }

  lemma TenantDoesNotMatter(raw: RawPolicy, own: RawPolicy, parent: RawPolicy, p: Policy)
    requires Fills(own, parent, p) && own == raw.(tenant := own.tenant) && Inherited(p.tenant, raw.tenant, parent.tenant, "")
    ensures Fills(raw, parent, p)
  {
  }

  lemma WithTenant(raw: RawPolicy, tenant: Option<string>, p: Policy)
    requires Fills(raw, UNSET, p) && Inherited(p.tenant, raw.tenant, tenant, "")
    ensures Fills(raw, UNSET.(tenant := tenant), p)
  {
  }

  /**
    * Under a connection with locations an override takes every field it does not set from its connection; elsewhere it
    * takes the tenant of its connection and the defaults.
    */
  lemma OverrideInherits(d: Definition, c: Config, key: (string, string))
    requires Loaded(d, c) && key in d.tables
    ensures key in c.tables
    ensures key.0 !in d.connections ==> Fills(d.tables[key], UNSET, c.tables[key])
    ensures key.0 in d.connections ==>
              var parent := d.connections[key.0];
              Fills(d.tables[key], if ValueOr(parent.residency, {}) != {} then parent else UNSET.(tenant := parent.tenant),
                    c.tables[key])
  {
    hide ValidTenant, ValidResidency, WellDefined, PoolsMatchConnections, PoolsDefined, StoresDefined, EndpointsDefined;
    assert TableDefined(d, key) && c.tables[key] == Plain(Override(d, key).value);
    hide Loaded;
    OverrideFills(d, key);
  }

  lemma OverrideFills(d: Definition, key: (string, string))
    requires key in d.tables && Override(d, key).Some?
    ensures var p := Plain(Override(d, key).value);
            && (key.0 !in d.connections ==> Fills(d.tables[key], UNSET, p))
            && (key.0 in d.connections ==>
                  var parent := d.connections[key.0];
                  Fills(d.tables[key], if ValueOr(parent.residency, {}) != {} then parent else UNSET.(tenant := parent.tenant), p))
  {
    hide Fills, Merge;
    var raw := d.tables[key];
    if key.0 !in d.connections {
      PlainFills(raw, UNSET);
    } else {
      var parent := d.connections[key.0];
      var tenant := ValueOr(parent.tenant, "");
      var own := if tenant != "" && raw.tenant.None? then raw.(tenant := Some(tenant)) else raw;
      PlainFills(own, parent);
      if ValueOr(parent.residency, {}) != {} {
        MergedTenant(parent, own);
        TenantDoesNotMatter(raw, own, parent, Plain(Merge(parent, own)));
      } else {
        assert Inherited(Plain(own).tenant, own.tenant, parent.tenant, "");
        WithTenant(own, parent.tenant, Plain(own));
        TenantDoesNotMatter(raw, own, UNSET.(tenant := parent.tenant), Plain(own));
      }
    }
  }

  /** An override is refused if it changes the tenant of its connection, or leaves or drops its locations. */
  lemma OverrideRefusedIff(d: Definition, key: (string, string))
    requires key in d.tables
    ensures Override(d, key).None? <==>
            && key.0 in d.connections
            && var parent, raw := d.connections[key.0], d.tables[key];
            || (ValueOr(parent.tenant, "") != "" && raw.tenant.Some? && raw.tenant != parent.tenant)
            || (ValueOr(parent.residency, {}) != {} && raw.residency.Some?
                && (raw.residency.value == {} || !(raw.residency.value <= parent.residency.value)))
  {
  }

  lemma MergedTenant(parent: RawPolicy, own: RawPolicy)
    ensures Plain(Merge(parent, own)).tenant == ValueOr(Prefer(own.tenant, parent.tenant), "")
  {
  }

  /** A connection has the fields set for it, and the defaults. */
  lemma ConnectionsArePlain(d: Definition, c: Config, connection: string)
    requires Loaded(d, c)
    ensures c.connections.Keys == d.connections.Keys
    ensures connection in d.connections ==> Fills(d.connections[connection], UNSET, c.connections[connection])
    ensures c.pools == d.pools && c.stores == d.stores && c.endpoints == d.endpoints && c.tenants == d.tenants
  {
    hide ValidTenant, ValidResidency, WellDefined, PoolsMatchConnections, Override, Plain, Fills;
    if connection in d.connections {
      PlainFills(d.connections[connection], UNSET);
    }
  }
}
