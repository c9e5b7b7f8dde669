/** Limits that are the same for all tasks, as invariants of a dispatch pass, and the pool limit over all holders. */
module PassLimits {
  import opened Wrappers
  import opened Sequences
  import opened Placement
  import opened Scheduler

  /** No Agent record of this identity that the pass reads allows more than `limit` claims. */
  ghost predicate AgentLimitIs(env: Env, jobs: seq<Job>, id: string, limit: nat) {
    forall job, a | job in jobs && a in job.agents && a.id == id :: env.maxInflight * Capacity(a) <= limit
  }

  /** Every table of the connection has the same source limit. */
  ghost predicate UniformSource(c: Config, connection: string, limit: nat) {
    forall table :: PolicyFor(c, connection, table).sourceMaxConcurrency == Some(limit)
  }

  ghost predicate PoolsCapped(env: Env, claims: seq<Claim>) {
    forall p | p in env.config.pools :: AtMost(Count(claims, PoolKey(), p), env.config.pools[p].maxConcurrency)
  }

  ghost predicate DatasetsCapped(env: Env, claims: seq<Claim>) {
    forall t: Task ::
      AtMost(Count(claims, ScopeKey(env), ScopeOf(env.config, t)), PolicyFor(env.config, t.connection, t.table).maxConcurrency)
  }

  ghost predicate SourcesCapped(env: Env, claims: seq<Claim>) {
    forall connection, limit | UniformSource(env.config, connection, limit) :: Count(claims, SourceKey(), connection) <= limit
  }

  ghost predicate Capped(env: Env, claims: seq<Claim>) {
    env.config.Enabled() ==> PoolsCapped(env, claims) && DatasetsCapped(env, claims) && SourcesCapped(env, claims)
  }

  lemma PoolsStayCapped(env: Env, claims: seq<Claim>, claim: Claim, job: Job, a: Agent)
    requires PoolsCapped(env, claims) && Justified(env, claims, claim, job, a) && env.config.Enabled()
    requires "" !in env.config.pools
    ensures PoolsCapped(env, claims + [claim])
  {
    hide Admissible, Count;
    forall p | p in env.config.pools
      ensures AtMost(Count(claims + [claim], PoolKey(), p), env.config.pools[p].maxConcurrency)
    {
      CountSnoc(claims, claim, PoolKey(), p);
    }
  }

  lemma SameScopeSameLimit(c: Config, s: Task, t: Task)
    requires ScopeOf(c, s) == ScopeOf(c, t) && forall k | k in c.tables :: k.1 != ""
    ensures PolicyFor(c, s.connection, s.table).maxConcurrency == PolicyFor(c, t.connection, t.table).maxConcurrency
  {
  }

  lemma DatasetsStayCapped(env: Env, claims: seq<Claim>, claim: Claim, job: Job, a: Agent)
    requires DatasetsCapped(env, claims) && Justified(env, claims, claim, job, a) && env.config.Enabled()
    requires forall k | k in env.config.tables :: k.1 != ""
    ensures DatasetsCapped(env, claims + [claim])
  {
    hide Admissible, Count, PolicyFor, ScopeOf;
    forall t: Task
      ensures AtMost(Count(claims + [claim], ScopeKey(env), ScopeOf(env.config, t)),
                     PolicyFor(env.config, t.connection, t.table).maxConcurrency)
    {
      CountSnoc(claims, claim, ScopeKey(env), ScopeOf(env.config, t));
      if ScopeOf(env.config, t) == ScopeOf(env.config, claim.task) {
        SameScopeSameLimit(env.config, t, claim.task);
      }
    }
  }

  lemma SourcesStayCapped(env: Env, claims: seq<Claim>, claim: Claim, job: Job, a: Agent)
    requires SourcesCapped(env, claims) && Justified(env, claims, claim, job, a) && env.config.Enabled()
    ensures SourcesCapped(env, claims + [claim])
  {
    hide Admissible, Count, PolicyFor;
    forall connection, limit | UniformSource(env.config, connection, limit)
      ensures Count(claims + [claim], SourceKey(), connection) <= limit
    {
      CountSnoc(claims, claim, SourceKey(), connection);
      assert connection == claim.task.connection ==>
          PolicyFor(env.config, connection, claim.task.table).sourceMaxConcurrency == Some(limit);
    }
  }

  /** What the last job of a pass adds. */
  lemma LastJob(env: Env, claimed: seq<Claim>, jobs: seq<Job>) returns (issued: Option<(Claim, Agent)>)
    requires jobs != [] && "" !in env.config.pools
    ensures var before := Run(env, Start(env, claimed), jobs[..|jobs| - 1]);
            var after := Run(env, Start(env, claimed), jobs);
            match issued
            case None => after == before
            case Some(i) => Justified(env, before.claims, i.0, jobs[|jobs| - 1], i.1) && after.claims == before.claims + [i.0]
  {
    hide Step, Justified, CountersOf;
    var before := Run(env, Start(env, claimed), jobs[..|jobs| - 1]);
    EveryClaimIsJustified(env, claimed, jobs[..|jobs| - 1]);
    StepIsJustified(env, before, jobs[|jobs| - 1]);
    if Run(env, Start(env, claimed), jobs) == before {
      issued := None;
    } else {
      var claim, a :| Justified(env, before.claims, claim, jobs[|jobs| - 1], a)
                      && Step(env, before, jobs[|jobs| - 1]).claims == before.claims + [claim];
      issued := Some((claim, a));
    }
  }

  /** Pool, dataset and uniform source counts that start within their limits never exceed them. */
  lemma {:induction false} PassKeepsCaps(env: Env, claimed: seq<Claim>, jobs: seq<Job>)
    requires "" !in env.config.pools && forall k | k in env.config.tables :: k.1 != ""
    requires Capped(env, claimed)
    ensures Capped(env, Run(env, Start(env, claimed), jobs).claims)
  {
    hide Step, Justified, CountersOf, PoolsCapped, DatasetsCapped, SourcesCapped;
    if jobs != [] {
      var before := Run(env, Start(env, claimed), jobs[..|jobs| - 1]);
      PassKeepsCaps(env, claimed, jobs[..|jobs| - 1]);
      var issued := LastJob(env, claimed, jobs);
      if issued.Some? && env.config.Enabled() {
        PoolsStayCapped(env, before.claims, issued.value.0, jobs[|jobs| - 1], issued.value.1);
        DatasetsStayCapped(env, before.claims, issued.value.0, jobs[|jobs| - 1], issued.value.1);
        SourcesStayCapped(env, before.claims, issued.value.0, jobs[|jobs| - 1], issued.value.1);
      }
    }
  }

  /** An Agent within its limit stays within it, also when some tasks must run on a shard of their own. */
  lemma {:induction false} PassKeepsAgentCap(env: Env, claimed: seq<Claim>, jobs: seq<Job>, id: string, limit: nat)
    requires "" !in env.config.pools && env.maxInflight >= 1
    requires AgentLimitIs(env, jobs, id, limit) && Count(claimed, AgentKey(), id) <= limit
    ensures Count(Run(env, Start(env, claimed), jobs).claims, AgentKey(), id) <= limit
  {
    hide Step, CountersOf, Admissible;
    if jobs != [] {
      var before, job := Run(env, Start(env, claimed), jobs[..|jobs| - 1]), jobs[|jobs| - 1];
      PassKeepsAgentCap(env, claimed, jobs[..|jobs| - 1], id, limit);
      var issued := LastJob(env, claimed, jobs);
      if issued.Some? {
        var (claim, a) := issued.value;
        CountSnoc(before.claims, claim, AgentKey(), id);
        AdmissibleIsRegistered(env, CountersOf(env, before.claims), job, a);
        AtLeastOne(env.maxInflight, Capacity(a));
        assert job in jobs;
      }
    }
  }

  lemma AtLeastOne(m: nat, n: nat)
    requires m >= 1 && n >= 1
    ensures m * n >= 1
  {
  }

  // The pool limit over all holders, registered or not.

  /** A registered Agent has the pool and tenant of its identity. */
  ghost predicate Registered(c: Config, a: Agent) {
    && (a.pool != "" ==> a.pool in c.pools && a.id in c.pools[a.pool].identities && a.tenant == c.pools[a.pool].tenant)
    && forall p | p in c.pools && a.id in c.pools[p].identities :: a.pool == p
  }

  ghost predicate View(c: Config, agents: seq<Agent>) {
    forall a | a in agents :: Registered(c, a)
  }

  ghost predicate Views(c: Config, jobs: seq<Job>) {
    forall job | job in jobs :: View(c, job.agents)
  }

  /** The claim is held by an identity of the pool. */
  function HeldKey(c: Config, pool: string): Claim -> bool {
    (claim: Claim) => pool in c.pools && claim.agent in c.pools[pool].identities
  }

  predicate IsRegistered(agents: seq<Agent>, id: string) {
    exists i :: 0 <= i < |agents| && agents[i].id == id
  }

  lemma {:induction false} PoolOfIdentity(c: Config, agents: seq<Agent>, id: string, pool: string)
    requires View(c, agents) && pool in c.pools && pool != ""
    ensures PoolOf(agents, id) == pool <==> IsRegistered(agents, id) && id in c.pools[pool].identities
  {
    if agents != [] {
      assert View(c, agents[1..]) && Registered(c, agents[0]);
      PoolOfIdentity(c, agents[1..], id, pool);
      assert IsRegistered(agents[1..], id) ==> IsRegistered(agents, id) by {
        if IsRegistered(agents[1..], id) {
          var i :| 0 <= i < |agents[1..]| && agents[1..][i].id == id;
          assert agents[i + 1].id == id;
        }
      }
      if IsRegistered(agents, id) && agents[0].id != id {
        var i :| 0 <= i < |agents| && agents[i].id == id;
        assert agents[1..][i - 1].id == id;
      }
    }
  }

  /** All claims held by identities of the pool were counted for it. */
  ghost predicate AllCounted(c: Config, held: seq<Holding>, pool: string) {
    forall h | h in held && HeldKey(c, pool)(ClaimOf(h)) :: IsRegistered(h.agents, h.agent)
  }

  lemma {:induction false} CountsCompare(c: Config, claims: seq<Claim>, pool: string)
    requires forall i | 0 <= i < |claims| :: claims[i].counted == pool ==> HeldKey(c, pool)(claims[i])
    ensures Count(claims, PoolKey(), pool) <= Count(claims, HeldKey(c, pool), true)
    ensures Count(claims, PoolKey(), pool) == Count(claims, HeldKey(c, pool), true) <==>
            forall i | 0 <= i < |claims| :: HeldKey(c, pool)(claims[i]) ==> claims[i].counted == pool
  {
    if claims != [] {
      CountsCompare(c, claims[..|claims| - 1], pool);
    }
  }

  /**
    * The pool count that a pass starts from is the number of claims held by the pool's identities exactly when
    * all their holders are registered; otherwise it is too low.
    */
  lemma PoolCountIsExactIff(c: Config, held: seq<Holding>, pool: string)
    requires pool in c.pools && pool != "" && forall h | h in held :: View(c, h.agents)
    ensures var claims := Map(ClaimOf, held);
            && Count(claims, PoolKey(), pool) <= Count(claims, HeldKey(c, pool), true)
            && (Count(claims, PoolKey(), pool) == Count(claims, HeldKey(c, pool), true) <==> AllCounted(c, held, pool))
  {
    hide Count, View, PoolOf, IsRegistered;
    var claims := Map(ClaimOf, held);
    forall i | 0 <= i < |held|
      ensures claims[i].counted == pool <==> HeldKey(c, pool)(claims[i]) && IsRegistered(held[i].agents, held[i].agent)
    {
      PoolOfIdentity(c, held[i].agents, held[i].agent, pool);
    }
    CountsCompare(c, claims, pool);
  }

  /** The claim went to an Agent of the pool that had unregistered before the claim was counted. */
  function GoneKey(pool: string): Claim -> bool {
    (claim: Claim) => claim.pool == pool && claim.counted == ""
  }

  /** A pass misses a claim it issues exactly when its Agent is gone by the time it is counted. */
  lemma {:induction false} PassMissesTheGone(env: Env, claimed: seq<Claim>, jobs: seq<Job>, pool: string)
    requires "" !in env.config.pools && pool in env.config.pools && Views(env.config, jobs)
    ensures var claims := Run(env, Start(env, claimed), jobs).claims;
            && claimed <= claims
            && Count(claims, HeldKey(env.config, pool), true) - Count(claims, PoolKey(), pool)
               == Count(claimed, HeldKey(env.config, pool), true) - Count(claimed, PoolKey(), pool)
                  + Count(claims, GoneKey(pool), true) - Count(claimed, GoneKey(pool), true)
  {
    hide Step, CountersOf, Admissible, WithinLimits, Count;
    if jobs != [] {
      var before, job := Run(env, Start(env, claimed), jobs[..|jobs| - 1]), jobs[|jobs| - 1];
      assert job in jobs;
      PassMissesTheGone(env, claimed, jobs[..|jobs| - 1], pool);
      var issued := LastJob(env, claimed, jobs);
      if issued.Some? {
        var (claim, a) := issued.value;
        CountSnoc(before.claims, claim, PoolKey(), pool);
        CountSnoc(before.claims, claim, HeldKey(env.config, pool), true);
        CountSnoc(before.claims, claim, GoneKey(pool), true);
        AdmissibleIsRegistered(env, CountersOf(env, before.claims), job, a);
        assert Registered(env.config, a);
      }
    }
  }

  /** The identities in `stay` do not unregister between the delivery of a claim and its counting. */
  ghost predicate Staying(jobs: seq<Job>, stay: set<string>) {
    forall job, a | job in jobs && a in job.agents && a.id in stay :: a.id in job.later
  }

  /** If all identities of the pool stay, none of its claims goes missing. */
  lemma {:induction false} NobodyGone(env: Env, claimed: seq<Claim>, jobs: seq<Job>, pool: string, stay: set<string>)
    requires "" !in env.config.pools && pool in env.config.pools && Views(env.config, jobs)
    requires Staying(jobs, stay) && env.config.pools[pool].identities <= stay
    ensures Count(Run(env, Start(env, claimed), jobs).claims, GoneKey(pool), true) == Count(claimed, GoneKey(pool), true)
  {
    hide Step, CountersOf, Admissible, WithinLimits, Count;
    if jobs != [] {
      var before, job := Run(env, Start(env, claimed), jobs[..|jobs| - 1]), jobs[|jobs| - 1];
      assert job in jobs;
      NobodyGone(env, claimed, jobs[..|jobs| - 1], pool, stay);
      var issued := LastJob(env, claimed, jobs);
      if issued.Some? {
        var (claim, a) := issued.value;
        CountSnoc(before.claims, claim, GoneKey(pool), true);
        AdmissibleIsRegistered(env, CountersOf(env, before.claims), job, a);
        assert Registered(env.config, a);
      }
    }
  }

  /** Once the pool's counter is at its limit, a pass issues it nothing. */
  lemma {:induction false} FullPoolGetsNothing(env: Env, claimed: seq<Claim>, jobs: seq<Job>, pool: string)
    requires "" !in env.config.pools && pool in env.config.pools && Views(env.config, jobs)
    requires env.config.pools[pool].maxConcurrency.Some?
    requires Count(claimed, PoolKey(), pool) >= env.config.pools[pool].maxConcurrency.value
    ensures var claims := Run(env, Start(env, claimed), jobs).claims;
            && Count(claims, PoolKey(), pool) == Count(claimed, PoolKey(), pool)
            && Count(claims, HeldKey(env.config, pool), true) == Count(claimed, HeldKey(env.config, pool), true)
  {
    hide Step, CountersOf, Admissible, WithinLimits, Count;
    if jobs != [] {
      var before, job := Run(env, Start(env, claimed), jobs[..|jobs| - 1]), jobs[|jobs| - 1];
      assert job in jobs;
      FullPoolGetsNothing(env, claimed, jobs[..|jobs| - 1], pool);
      var issued := LastJob(env, claimed, jobs);
      if issued.Some? {
        var (claim, a) := issued.value;
        CountSnoc(before.claims, claim, PoolKey(), pool);
        CountSnoc(before.claims, claim, HeldKey(env.config, pool), true);
        CountersCount(env, before.claims);
        AdmissibleIsRegistered(env, CountersOf(env, before.claims), job, a);
        assert env.config.Enabled();
        AdmissibleMatches(env, CountersOf(env, before.claims), job, a);
        assert Registered(env.config, a);
      }
    }
  }

  /**
    * If every holder is registered when the pass begins, and the Agents of the pool that get tasks are still there when
    * these are counted, the pool does not end the pass with more claims than its limit allows.
    */
  lemma PassKeepsPoolLimit(env: Env, held: seq<Holding>, jobs: seq<Job>, pool: string, stay: set<string>)
    requires "" !in env.config.pools && forall k | k in env.config.tables :: k.1 != ""
    requires pool in env.config.pools && Views(env.config, jobs) && forall h | h in held :: View(env.config, h.agents)
    requires Capped(env, Map(ClaimOf, held)) && AllCounted(env.config, held, pool)
    requires Staying(jobs, stay) && env.config.pools[pool].identities <= stay
    ensures AtMost(Count(Run(env, Start(env, Map(ClaimOf, held)), jobs).claims, HeldKey(env.config, pool), true),
                   env.config.pools[pool].maxConcurrency)
  {
    hide Run, Count, CountersOf, AllCounted, Views, DatasetsCapped, SourcesCapped, Staying;
    PassKeepsCaps(env, Map(ClaimOf, held), jobs);
    PoolCountIsExactIff(env.config, held, pool);
    PassMissesTheGone(env, Map(ClaimOf, held), jobs, pool);
    NobodyGone(env, Map(ClaimOf, held), jobs, pool, stay);
    assert env.config.pools != map[];
  }

  /** The policy allows the pool to take tasks of this dataset. */
  predicate Feeds(c: Config, matches: (string, string) -> bool, pool: string, connection: string, table: string) {
    var p := PolicyFor(c, connection, table);
    && pool in c.pools && Allows(c.pools[pool], connection, table, matches)
    && ValidTaskTenant(c, c.pools[pool].tenant, p) && ValidDispatch(c, p, connection)
    && (p.requiredLocation == "" || p.requiredLocation == c.pools[pool].location)
    && (p.requiredStore == "" || p.requiredStore == c.pools[pool].store)
    && (Targets(p) == [] || pool in Targets(p)) && forall i | 0 <= i < |Targets(p)| :: Targets(p)[i] != ""
  }

  /** A task of the dataset. */
  function FeedTask(c: Config, pool: string, connection: string, table: string): Task
    requires pool in c.pools
  {
    Task("task", connection, table, c.pools[pool].tenant)
  }

  /** The limits of the dataset and of its source leave room for `n` more claims. */
  ghost predicate Room(env: Env, claims: seq<Claim>, task: Task, n: int) {
    var p := PolicyFor(env.config, task.connection, task.table);
    && (p.maxConcurrency.Some? ==> Count(claims, ScopeKey(env), ScopeOf(env.config, task)) + n <= p.maxConcurrency.value)
    && (p.sourceMaxConcurrency.Some? ==> Count(claims, SourceKey(), task.connection) + n <= p.sourceMaxConcurrency.value)
  }

  /** A task of the dataset, and one Agent of the pool with room for `capacity` claims, which may leave before it is counted. */
  function FeedJob(c: Config, pool: string, connection: string, table: string, id: string, capacity: nat, stays: bool): Job
    requires pool in c.pools
  {
    var tenant := c.pools[pool].tenant;
    Job(FeedTask(c, pool, connection, table), [Agent(id, true, true, false, 0, capacity, 0, (1, 1), pool, tenant)],
        false, None, None, {id}, true, if stays then {id} else {})
  }

  lemma FeedJobIsRegistered(c: Config, pool: string, connection: string, table: string, id: string, capacity: nat, stays: bool)
    requires pool in c.pools && id in c.pools[pool].identities && DisjointIdentities(c.pools)
    ensures View(c, FeedJob(c, pool, connection, table, id, capacity, stays).agents)
  {
    assert Registered(c, FeedJob(c, pool, connection, table, id, capacity, stays).agents[0]);
  }

  /** While the pool's counter is below its limit, such a job is claimed. */
  lemma FeedJobIsClaimed(env: Env, claims: seq<Claim>, pool: string, connection: string, table: string, id: string,
                         capacity: nat, stays: bool)
    requires env.maxInflight >= 1 && pool != "" && Feeds(env.config, env.matches, pool, connection, table)
    requires Count(claims, AgentKey(), id) < capacity && Room(env, claims, FeedTask(env.config, pool, connection, table), 1)
    requires BelowLimit(Count(claims, PoolKey(), pool), env.config.pools[pool].maxConcurrency)
    ensures var job := FeedJob(env.config, pool, connection, table, id, capacity, stays);
            Step(env, Start(env, claims), job) == Start(env, claims + [Issued(job, job.agents[0])])
  {
    hide PolicyFor, ValidDispatch, ValidTaskTenant, Assign, Count, ScopeOf;
    var job, c := FeedJob(env.config, pool, connection, table, id, capacity, stays), CountersOf(env, claims);
    CountersCount(env, claims);
    CountersSnoc(env, claims, Issued(job, job.agents[0]));
    RoomEnough(env.maxInflight, capacity, Count(claims, AgentKey(), id));
    assert env.config.pools != map[];
    LoneAgent(env, c, job, job.agents[0]);
  }

  lemma RoomEnough(m: nat, capacity: nat, count: nat)
    requires m >= 1 && count < capacity
    ensures count < m * capacity
  {
    assert (m - 1) * capacity >= 0;
    assert m * capacity == (m - 1) * capacity + capacity;
  }

  function Repeat(job: Job, n: nat): (r: seq<Job>)
    ensures |r| == n && forall i | 0 <= i < n :: r[i] == job
  {
    seq(n, _ => job)
  }

  lemma {:induction false} CountBounded<K>(claims: seq<Claim>, key: Claim -> K, k: K)
    ensures Count(claims, key, k) <= |claims|
  {
    if claims != [] {
      CountBounded(claims[..|claims| - 1], key, k);
    }
  }

  /** `s` continues `claimed` by `n` claims of the pool for `task`, counted if their Agent stays. */
  ghost predicate Fed(env: Env, claimed: seq<Claim>, pool: string, task: Task, stays: bool, n: nat, s: State) {
    && s == Start(env, s.claims) && |s.claims| == |claimed| + n
    && Count(s.claims, PoolKey(), pool) == Count(claimed, PoolKey(), pool) + (if stays then n else 0)
    && Count(s.claims, HeldKey(env.config, pool), true) == Count(claimed, HeldKey(env.config, pool), true) + n
    && Count(s.claims, ScopeKey(env), ScopeOf(env.config, task)) == Count(claimed, ScopeKey(env), ScopeOf(env.config, task)) + n
    && Count(s.claims, SourceKey(), task.connection) == Count(claimed, SourceKey(), task.connection) + n
  }

  lemma FedOnce(env: Env, claimed: seq<Claim>, pool: string, connection: string, table: string, id: string,
                capacity: nat, stays: bool, limit: nat, n: nat, s: State)
    requires env.maxInflight >= 1 && pool != "" && Feeds(env.config, env.matches, pool, connection, table)
    requires env.config.pools[pool].maxConcurrency == Some(limit) && id in env.config.pools[pool].identities
    requires Count(claimed, PoolKey(), pool) + (if stays then n else 0) < limit && |claimed| + n < capacity
    requires var task := FeedTask(env.config, pool, connection, table);
             Room(env, claimed, task, n + 1) && Fed(env, claimed, pool, task, stays, n, s)
    ensures Fed(env, claimed, pool, FeedTask(env.config, pool, connection, table), stays, n + 1,
                Step(env, s, FeedJob(env.config, pool, connection, table, id, capacity, stays)))
  {
    hide Count, Step, CountersOf, PolicyFor, ValidDispatch, Allows, ScopeOf;
    var job := FeedJob(env.config, pool, connection, table, id, capacity, stays);
    var claim := Issued(job, job.agents[0]);
    CountBounded(s.claims, AgentKey(), id);
    FeedJobIsClaimed(env, s.claims, pool, connection, table, id, capacity, stays);
    CountSnoc(s.claims, claim, PoolKey(), pool);
    CountSnoc(s.claims, claim, HeldKey(env.config, pool), true);
    CountSnoc(s.claims, claim, ScopeKey(env), ScopeOf(env.config, job.task));
    CountSnoc(s.claims, claim, SourceKey(), connection);
  }

  /** `n` such jobs give the pool `n` more claims, as long as its counter and the other limits allow them. */
  lemma {:induction false} PoolIsFed(env: Env, claimed: seq<Claim>, pool: string, connection: string, table: string, id: string,
                                     capacity: nat, stays: bool, limit: nat, n: nat)
    requires env.maxInflight >= 1 && pool != "" && Feeds(env.config, env.matches, pool, connection, table)
    requires env.config.pools[pool].maxConcurrency == Some(limit) && id in env.config.pools[pool].identities
    requires Room(env, claimed, FeedTask(env.config, pool, connection, table), n) && |claimed| + n <= capacity
    requires if stays then Count(claimed, PoolKey(), pool) + n <= limit else Count(claimed, PoolKey(), pool) < limit
    ensures Fed(env, claimed, pool, FeedTask(env.config, pool, connection, table), stays, n,
                Run(env, Start(env, claimed), Repeat(FeedJob(env.config, pool, connection, table, id, capacity, stays), n)))
  {
    assert pool in env.config.pools;
    hide Count, Step, Feeds, CountersOf, FeedJob, PolicyFor, ScopeOf, FeedTask;
    if n > 0 {
      var job := FeedJob(env.config, pool, connection, table, id, capacity, stays);
      PoolIsFed(env, claimed, pool, connection, table, id, capacity, stays, limit, n - 1);
      assert Repeat(job, n)[..n - 1] == Repeat(job, n - 1) && Repeat(job, n)[n - 1] == job;
      hide Fed, Start, Repeat;
      FedOnce(env, claimed, pool, connection, table, id, capacity, stays, limit, n - 1,
              Run(env, Start(env, claimed), Repeat(job, n - 1)));
    }
  }

  lemma PoolStartsCapped(env: Env, claims: seq<Claim>, pool: string, limit: nat)
    requires Capped(env, claims) && pool in env.config.pools && env.config.pools[pool].maxConcurrency == Some(limit)
    ensures Count(claims, PoolKey(), pool) <= limit
  {
    assert env.config.pools != map[];
  }

  /** A limited pool, and claims found within the limits. */
  ghost predicate Setting(env: Env, held: seq<Holding>, pool: string, limit: nat) {
    && env.maxInflight >= 1 && "" !in env.config.pools && (forall k | k in env.config.tables :: k.1 != "")
    && pool in env.config.pools && env.config.pools[pool].maxConcurrency == Some(limit)
    && env.config.pools[pool].identities != {} && DisjointIdentities(env.config.pools)
    && (forall h | h in held :: View(env.config, h.agents)) && Capped(env, Map(ClaimOf, held))
  }

  /** The pool may take a dataset whose own limits leave room for one claim more than its own. */
  ghost predicate RoomBeyond(env: Env, held: seq<Holding>, pool: string, connection: string, table: string, limit: nat) {
    && Feeds(env.config, env.matches, pool, connection, table)
    && Room(env, Map(ClaimOf, held), FeedTask(env.config, pool, connection, table),
            limit + 1 - Count(Map(ClaimOf, held), PoolKey(), pool))
  }

  /** Every pass over registered Agents in which `stay` stay keeps the limit of the pool over all holders. */
  ghost predicate PassesKeepLimit(env: Env, claimed: seq<Claim>, pool: string, stay: set<string>, limit: nat) {
    forall jobs | Views(env.config, jobs) && Staying(jobs, stay) ::
      Count(Run(env, Start(env, claimed), jobs).claims, HeldKey(env.config, pool), true) <= limit
  }

  /** All claims held are counted, and all that are issued will be: the identities stay, or the pool is full already. */
  ghost predicate NoneMissed(env: Env, held: seq<Holding>, pool: string, stay: set<string>, limit: nat)
    requires pool in env.config.pools
  {
    && AllCounted(env.config, held, pool)
    && (env.config.pools[pool].identities <= stay || Count(Map(ClaimOf, held), PoolKey(), pool) >= limit)
  }

  lemma NoneMissedIsEnough(env: Env, held: seq<Holding>, pool: string, stay: set<string>, limit: nat)
    requires Setting(env, held, pool, limit) && NoneMissed(env, held, pool, stay, limit)
    ensures PassesKeepLimit(env, Map(ClaimOf, held), pool, stay, limit)
  {
    hide Start, Run, Count, CountersOf, AllCounted, View, Capped, Staying;
    var claimed := Map(ClaimOf, held);
    PoolStartsCapped(env, claimed, pool, limit);
    PoolCountIsExactIff(env.config, held, pool);
    forall jobs | Views(env.config, jobs) && Staying(jobs, stay)
      ensures Count(Run(env, Start(env, claimed), jobs).claims, HeldKey(env.config, pool), true) <= limit
    {
      if Count(claimed, PoolKey(), pool) >= limit {
        FullPoolGetsNothing(env, claimed, jobs, pool);
      } else {
        PassKeepsPoolLimit(env, held, jobs, pool, stay);
      }
    }
  }

  /** A pass of `n` tasks for one Agent of the pool, all of them claimed. */
  lemma FeedingPass(env: Env, held: seq<Holding>, pool: string, connection: string, table: string, stay: set<string>,
                    limit: nat, id: string, stays: bool, n: nat)
    returns (jobs: seq<Job>)
    requires Setting(env, held, pool, limit) && RoomBeyond(env, held, pool, connection, table, limit)
    requires var count := Count(Map(ClaimOf, held), PoolKey(), pool);
             if stays then count + n <= limit else count < limit && count + n <= limit + 1
    requires id in env.config.pools[pool].identities
    requires stays || id !in stay
    ensures Views(env.config, jobs) && Staying(jobs, stay)
    ensures Count(Run(env, Start(env, Map(ClaimOf, held)), jobs).claims, HeldKey(env.config, pool), true)
         == Count(Map(ClaimOf, held), HeldKey(env.config, pool), true) + n
  {
    hide Start, Run, Count, CountersOf, View, Feeds, Capped, PolicyFor, ScopeOf, FeedTask;
    var claimed := Map(ClaimOf, held);
    var job := FeedJob(env.config, pool, connection, table, id, |claimed| + n, stays);
    jobs := Repeat(job, n);
    FeedJobIsRegistered(env.config, pool, connection, table, id, |claimed| + n, stays);
    PoolIsFed(env, claimed, pool, connection, table, id, |claimed| + n, stays, limit, n);
    assert forall j | j in jobs :: j == job;
  }

  /**
    * Every pass keeps the limit of the pool over all holders if and only if all of them are registered when it begins and
    * the identities of the pool do not unregister before their claims are counted, unless it is full already; the
    * converse is for a pool that may take a dataset whose own limits leave room for one claim more than the pool's.
    */
  lemma PassesKeepPoolLimitIff(env: Env, held: seq<Holding>, pool: string, connection: string, table: string,
                               stay: set<string>, limit: nat)
    requires Setting(env, held, pool, limit) && RoomBeyond(env, held, pool, connection, table, limit)
    ensures PassesKeepLimit(env, Map(ClaimOf, held), pool, stay, limit) <==> NoneMissed(env, held, pool, stay, limit)
  {
    if NoneMissed(env, held, pool, stay, limit) {
      NoneMissedIsEnough(env, held, pool, stay, limit);
    } else {
      hide Start, Run, Count, CountersOf, AllCounted, View, RoomBeyond, Capped, Staying;
      var claimed := Map(ClaimOf, held);
      PoolStartsCapped(env, claimed, pool, limit);
      PoolCountIsExactIff(env.config, held, pool);
      var count := Count(claimed, PoolKey(), pool);
      if AllCounted(env.config, held, pool) {
        var id :| id in env.config.pools[pool].identities && id !in stay;
        var jobs := FeedingPass(env, held, pool, connection, table, stay, limit, id, false, limit + 1 - count);
      } else {
        var id :| id in env.config.pools[pool].identities;
        var jobs := FeedingPass(env, held, pool, connection, table, stay, limit, id, true, limit - count);
      }
    }
  }

  /** One pool, limited to one claim, with two identities. */
  const ONE_POOL: Config :=
    Config(map["p" := Pool({"a", "b"}, "", "", {"db"}, [], Some(1), "")], map[], map[], map[], map[], {}, "")

  function OnePoolEnv(): Env {
    Env(ONE_POOL, 1, (x, y) => true, (x, y) => 0)
  }

  lemma OnePoolFeeds(claimed: seq<Claim>, n: nat)
    ensures Feeds(ONE_POOL, OnePoolEnv().matches, "p", "db", "t")
    ensures Room(OnePoolEnv(), claimed, FeedTask(ONE_POOL, "p", "db", "t"), n)
  {
    hide Count, ValidDispatch;
    UnknownDataset(ONE_POOL, "db");
  }

  lemma OnePoolIsFed(claimed: seq<Claim>, stays: bool, n: nat) returns (jobs: seq<Job>)
    requires Count(claimed, PoolKey(), "p") == 0 && (stays ==> n <= 1)
    ensures Views(ONE_POOL, jobs) && (stays ==> Staying(jobs, {"a", "b"}))
    ensures Count(Run(OnePoolEnv(), Start(OnePoolEnv(), claimed), jobs).claims, HeldKey(ONE_POOL, "p"), true)
         == Count(claimed, HeldKey(ONE_POOL, "p"), true) + n
  {
    hide Run, Start, Count, Feeds, Room, View;
    OnePoolFeeds(claimed, n);
    var job := FeedJob(ONE_POOL, "p", "db", "t", "b", |claimed| + n, stays);
    jobs := Repeat(job, n);
    assert DisjointIdentities(ONE_POOL.pools);
    FeedJobIsRegistered(ONE_POOL, "p", "db", "t", "b", |claimed| + n, stays);
    PoolIsFed(OnePoolEnv(), claimed, "p", "db", "t", "b", |claimed| + n, stays, 1, n);
    assert forall j | j in jobs :: j == job;
  }

  /** A pool limited to one claim ends with two, one of them held by an Agent that is no longer registered. */
  lemma UnregisteredHolderEscapesCap() returns (env: Env, held: seq<Holding>, jobs: seq<Job>)
    ensures Views(env.config, jobs) && (forall h | h in held :: View(env.config, h.agents)) && env.maxInflight >= 1
    ensures "p" in env.config.pools && env.config.pools["p"].maxConcurrency == Some(1)
    ensures Count(Map(ClaimOf, held), HeldKey(env.config, "p"), true) == 1
    ensures Count(Run(env, Start(env, Map(ClaimOf, held)), jobs).claims, HeldKey(env.config, "p"), true) == 2
    ensures Staying(jobs, {"a", "b"})
  {
    env, held := OnePoolEnv(), [Holding(Task("s", "db", "x", ""), "a", [])];
    var claimed := Map(ClaimOf, held);
    assert claimed == [] + [ClaimOf(held[0])];
    CountSnoc([], claimed[0], PoolKey(), "p");
    CountSnoc([], claimed[0], HeldKey(ONE_POOL, "p"), true);
    hide Run, Count, Start, Views, Staying;
    jobs := OnePoolIsFed(claimed, true, 1);
  }

  /** A pool limited to one claim gets two in a pass without any claim before, since its Agent unregisters after each. */
  lemma AgentGoneEscapesCap() returns (env: Env, jobs: seq<Job>)
    ensures Views(env.config, jobs) && env.maxInflight >= 1
    ensures "p" in env.config.pools && env.config.pools["p"].maxConcurrency == Some(1)
    ensures Count(Run(env, Start(env, []), jobs).claims, HeldKey(env.config, "p"), true) == 2
  {
    hide Run, Start, Views;
    env := OnePoolEnv();
    jobs := OnePoolIsFed([], false, 2);
  }
}
