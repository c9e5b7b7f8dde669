/** When every claim writes to a store of its own tenant: the exact condition on the configuration. */
module StoreTenants {
  import opened Wrappers
  import opened Placement
  import opened Scheduler
  import opened PassLimits

  /** The configuration `c` was loaded from `d` and bound to its active store. */
  ghost predicate InForce(d: Definition, c: Config) {
    exists before, store, provider :: Loaded(d, before) && Bound(before, c, store, provider)
  }

  /** The pool of the claim writes to a declared store of the tenant of its task. */
  predicate StoredInTenant(c: Config, claim: Claim) {
    && claim.pool in c.pools && c.pools[claim.pool].store in c.stores
    && c.stores[c.pools[claim.pool].store].tenant == claim.task.tenant
  }

  /** Every claim that the pass issues does. */
  ghost predicate PassStoredInTenant(env: Env, claimed: seq<Claim>, jobs: seq<Job>) {
    var claims := Run(env, Start(env, claimed), jobs).claims;
    forall k | |claimed| <= k < |claims| :: StoredInTenant(env.config, claims[k])
  }

  /** What loading and binding establish about pools. */
  ghost predicate PoolsReady(c: Config) {
    && "" !in c.tenants && "" !in c.pools && PoolsMatchConnections(c) && DisjointIdentities(c.pools)
    && forall p | p in c.pools ::
         c.pools[p].identities != {} && Positive(c.pools[p].maxConcurrency) && DeclaredTenant(c.tenants, c.pools[p].tenant)
  }

  lemma InForceIsReady(d: Definition, c: Config)
    requires InForce(d, c)
    ensures PoolsReady(c)
  {
    var before, store, provider :| Loaded(d, before) && Bound(before, c, store, provider);
    hide ValidTenant, ValidResidency, ValidDispatch, ConnectionsDefined, TableDefined;
    PoolsMatchWhenBound(d, before, c, store, provider);
  }

  /** A dataset of a known connection has a well-defined policy that may be dispatched. */
  lemma KnownIsDispatchable(d: Definition, c: Config, connection: string, table: string)
    requires InForce(d, c) && connection in c.connections
    ensures var p := PolicyFor(c, connection, table);
            WellDefined(p, c.pools.Keys, c.tenants) && ValidDispatch(c, p, connection)
  {
    hide WellDefined, ValidDispatch, PolicyFor, Loaded;
    var before, store, provider :| Loaded(d, before) && Bound(before, c, store, provider);
    DispatchFailsOnlyForUnknown(d, before, c, store, provider, connection, table);
    LoadedPolicies(d, before);
    PolicyIsDefined(c, connection, table);
  }

  ghost predicate PoliciesDefined(c: Config) {
    AllPolicies(c, p => WellDefined(p, c.pools.Keys, c.tenants))
  }

  lemma LoadedPolicies(d: Definition, c: Config)
    requires Loaded(d, c)
    ensures PoliciesDefined(c)
  {
    hide ValidTenant, ValidResidency, Override, Plain, WellDefined;
    forall k | k in c.tables
      ensures WellDefined(c.tables[k], c.pools.Keys, c.tenants)
    {
      assert TableDefined(d, k);
    }
  }

  lemma PolicyIsDefined(c: Config, connection: string, table: string)
    requires PoliciesDefined(c) && connection in c.connections
    ensures WellDefined(PolicyFor(c, connection, table), c.pools.Keys, c.tenants)
  {
    var parent := c.connections[connection];
    assert WellDefined(parent, c.pools.Keys, c.tenants);
    if (connection, table) in c.tables {
      SourceLimitKeepsDefined(c.tables[(connection, table)], parent.sourceMaxConcurrency, c.pools.Keys, c.tenants);
    }
  }

  lemma SourceLimitKeepsDefined(p: Policy, limit: Option<nat>, pools: set<string>, tenants: set<string>)
    requires WellDefined(p, pools, tenants) && Positive(limit)
    ensures WellDefined(p.(sourceMaxConcurrency := limit), pools, tenants)
  {
    assert Targets(p.(sourceMaxConcurrency := limit)) == Targets(p);
  }

  /** The condition is enough: an admitted Agent writes to a store of the tenant of its task. */
  lemma AdmittedIsStored(d: Definition, env: Env, c: Counters, job: Job, a: Agent)
    requires InForce(d, env.config) && env.config.tenants != {} && StoresMatch(env.config, env.matches)
    requires Admissible(env, c, job, a)
    ensures StoredInTenant(env.config, Issued(job, a))
  {
    hide ValidDispatch, PolicyFor, InForce, PoolsMatchConnections, InFirst;
    var task := job.task;
    var p := PolicyFor(env.config, task.connection, task.table);
    InForceIsReady(d, env.config);
    AssignmentSharesTenant(env, c, job, a);
    AdmissibleMatches(env, c, job, a);
    if p.requiredStore == "" {
      assert task.connection in env.config.connections by {
        PoolReadsKnown(env.config, a.pool, task.connection);
      }
      KnownIsDispatchable(d, env.config, task.connection, task.table);
      if Targets(p) != [] {
        InFirstIsNamed(env, c, job, p, Targets(p), a);
      }
      assert Unpinned(env.config, env.matches, a.pool, task.connection, task.table);
    }
  }

  lemma PoolReadsKnown(c: Config, pool: string, connection: string)
    requires PoolsMatchConnections(c) && c.tenants != {} && pool in c.pools && connection in c.pools[pool].connections
    ensures connection in c.connections && c.connections[connection].tenant == c.pools[pool].tenant
  {
  }

  lemma PassIsStored(d: Definition, env: Env, claimed: seq<Claim>, jobs: seq<Job>)
    requires InForce(d, env.config) && env.config.tenants != {} && StoresMatch(env.config, env.matches)
    ensures PassStoredInTenant(env, claimed, jobs)
  {
    hide Admissible, WithinLimits, CountersOf, Run, InForce, StoresMatch, StoredInTenant;
    InForceIsReady(d, env.config);
    EveryClaimIsJustified(env, claimed, jobs);
    var claims := Run(env, Start(env, claimed), jobs).claims;
    forall k | |claimed| <= k < |claims|
      ensures StoredInTenant(env.config, claims[k])
    {
      assert SomeoneJustified(env, jobs, claims[..k], claims[k]);
      var job, a :| job in jobs && Justified(env, claims[..k], claims[k], job, a);
      AdmittedIsStored(d, env, CountersOf(env, claims[..k]), job, a);
    }
  }

  /** The policy of the dataset has the pool's tenant, may be dispatched and has positive limits. */
  ghost predicate Usable(c: Config, pool: string, connection: string, table: string)
    requires pool in c.pools
  {
    var p := PolicyFor(c, connection, table);
    && p.tenant == c.pools[pool].tenant != "" && ValidDispatch(c, p, connection)
    && Positive(p.maxConcurrency) && Positive(p.sourceMaxConcurrency) && Positive(c.pools[pool].maxConcurrency)
    && forall i | 0 <= i < |Targets(p)| :: Targets(p)[i] != ""
  }

  lemma LoneFeedIsClaimed(env: Env, pool: string, connection: string, table: string, id: string)
    requires env.maxInflight >= 1 && env.config.tenants != {} && pool != ""
    requires Unpinned(env.config, env.matches, pool, connection, table) && Usable(env.config, pool, connection, table)
    ensures Run(env, Start(env, []), [FeedJob(env.config, pool, connection, table, id, 1, true)]).claims
         == [Claim(Task("task", connection, table, env.config.pools[pool].tenant), id, pool, pool)]
  {
    hide PolicyFor, Assign, ValidDispatch;
    var job := FeedJob(env.config, pool, connection, table, id, 1, true);
    LoneAgent(env, CountersOf(env, []), job, job.agents[0]);
    RunOne(env, Start(env, []), job);
    assert [] + [Issued(job, job.agents[0])] == [Issued(job, job.agents[0])];
  }

  lemma AllowedIsUsable(d: Definition, c: Config, pool: string, connection: string, table: string)
    requires InForce(d, c) && c.tenants != {} && pool in c.pools && connection in c.pools[pool].connections
    ensures Usable(c, pool, connection, table) && pool != ""
    ensures c.pools[pool].identities != {} && DisjointIdentities(c.pools)
  {
    InForceIsReady(d, c);
    hide InForce, PolicyFor, ValidDispatch, DisjointIdentities;
    PoolReadsKnown(c, pool, connection);
    KnownIsDispatchable(d, c, connection, table);
    DispatchHasTenant(c, PolicyFor(c, connection, table), connection);
  }

  /** The condition is needed: a pool that may take a dataset unpinned is given it by a pass with one Agent and one task. */
  lemma UnpinnedIsClaimed(d: Definition, c: Config, matches: (string, string) -> bool, pool: string, connection: string, table: string)
    returns (env: Env, job: Job)
    requires InForce(d, c) && c.tenants != {} && pool in c.pools && connection in c.pools[pool].connections
    requires Unpinned(c, matches, pool, connection, table)
    ensures env.config == c && env.matches == matches && env.maxInflight >= 1 && Views(c, [job])
    ensures var claims := Run(env, Start(env, []), [job]).claims;
            |claims| == 1 && claims[0].pool == pool && claims[0].task.tenant == c.pools[pool].tenant
  {
    hide InForce, Run, View, Unpinned, DisjointIdentities, Usable, FeedJob, Start;
    AllowedIsUsable(d, c, pool, connection, table);
    var id :| id in c.pools[pool].identities;
    env, job := Env(c, 1, matches, (x, y) => 0), FeedJob(c, pool, connection, table, id, 1, true);
    FeedJobIsRegistered(c, pool, connection, table, id, 1, true);
    LoneFeedIsClaimed(env, pool, connection, table, id);
  }

  lemma DispatchHasTenant(c: Config, p: Policy, connection: string)
    requires ValidDispatch(c, p, connection) && c.tenants != {} && connection in c.connections
    ensures p.tenant == c.connections[connection].tenant
  {
  }

  /**
    * Task, policy, pool and store share one tenant in every claim of every pass, whatever the registry and the queue
    * hold, if and only if every pool that may take some dataset unpinned writes to a declared store of its own tenant.
    */
  lemma StoreTenantIff(d: Definition, c: Config, matches: (string, string) -> bool)
    requires InForce(d, c) && c.tenants != {}
    ensures (forall env: Env, claimed: seq<Claim>, jobs: seq<Job>
               | env.config == c && env.matches == matches && env.maxInflight >= 1 && Views(c, jobs) ::
               PassStoredInTenant(env, claimed, jobs))
       <==> StoresMatch(c, matches)
  {
    hide InForce, Unpinned, PassStoredInTenant, Run, StoresMatch;
    if StoresMatch(c, matches) {
      forall env: Env, claimed: seq<Claim>, jobs: seq<Job> | env.config == c && env.matches == matches && Views(c, jobs)
        ensures PassStoredInTenant(env, claimed, jobs)
      {
        PassIsStored(d, env, claimed, jobs);
      }
    } else {
      var env, job := ForeignStoreIsUsed(d, c, matches);
      assert !PassStoredInTenant(env, [], [job]);
    }
  }

  lemma ForeignStoreIsUsed(d: Definition, c: Config, matches: (string, string) -> bool) returns (env: Env, job: Job)
    requires InForce(d, c) && c.tenants != {} && !StoresMatch(c, matches)
    ensures env.config == c && env.matches == matches && env.maxInflight >= 1 && Views(c, [job])
    ensures !PassStoredInTenant(env, [], [job])
  {
    var pool, connection, table :| Unpinned(c, matches, pool, connection, table) && !OwnStore(c, pool);
    assert pool in c.pools && connection in c.pools[pool].connections;
    hide InForce, Run, Unpinned, Views;
    env, job := UnpinnedIsClaimed(d, c, matches, pool, connection, table);
    assert !StoredInTenant(c, Run(env, Start(env, []), [job]).claims[0]);
  }

  /** A configuration that loads and binds, and a pass whose claim writes to the store of another tenant. */
  lemma StoreTenantUnchecked() returns (d: Definition, env: Env, job: Job)
    ensures InForce(d, env.config) && env.config.tenants == {"a", "b"} && Views(env.config, [job])
    ensures var claims := Run(env, Start(env, []), [job]).claims;
            && |claims| == 1 && claims[0].task.tenant == "a"
            && claims[0].pool in env.config.pools && env.config.pools[claims[0].pool].store in env.config.stores
            && env.config.stores[env.config.pools[claims[0].pool].store].tenant == "b"
  {
    hide Loaded, Bound, Run, Unpinned;
    var before, c;
    d, before, c := ForeignStore();
    env, job := UnpinnedIsClaimed(d, c, (x, y) => true, "p", "db", "t");
  }
}
