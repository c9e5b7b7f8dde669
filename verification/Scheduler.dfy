/** One dispatch pass of the scheduler: four concurrency caps, ordered fallback pools and the placement boundary. */
module Scheduler {
  import opened Wrappers
  import opened Sequences
  import opened Placement

  datatype Agent = Agent(id: string, alive: bool, materializer: bool, draining: bool, shard: int, capacityHint: int,
                         inflight: int, version: (int, int), pool: string, tenant: string)

  datatype Task = Task(id: string, connection: string, table: string, tenant: string)

  /**
    * `pool` is the pool of the Agent as the pass read it, `counted` the pool the claim counts for: none if the Agent is
    * not registered when the claim is counted.
    */
  datatype Claim = Claim(task: Task, agent: string, pool: string, counted: string)

  /** A claim found in the queue, with the registry as it is read when the claim is counted. */
  datatype Holding = Holding(task: Task, agent: string, agents: seq<Agent>)

  /**
    * A runnable task with what the pass reads for it: the registered Agents, whether its generation has been
    * superseded, the shard that must own it, the active members of its generation, the identities `present` in the
    * registry just before the claim, whether the queue accepts the claim and the registry the command, and the
    * identities still registered `later`, when the claim is counted.  The pool of an Agent is that of its identity, so
    * a later read can only find it or find it gone.
    */
  datatype Job = Job(task: Task, agents: seq<Agent>, fenced: bool, ownerShard: Option<int>, members: Option<set<string>>,
                     present: set<string>, accepted: bool, later: set<string>)

  datatype Env = Env(config: Config, maxInflight: nat, matches: (string, string) -> bool, tieBreak: (string, string) -> int)

  type Scope = (string, string)

  datatype Counters = Counters(agents: map<string, nat>, datasets: map<Scope, nat>, sources: map<string, nat>, pools: map<string, nat>)

  function Get<K>(m: map<K, nat>, k: K): nat {
    if k in m then m[k] else 0
  }

  function Increment<K>(m: map<K, nat>, k: K): map<K, nat> {
    m[k := Get(m, k) + 1]
  }

  function ScopeOf(c: Config, task: Task): Scope {
    if (task.connection, task.table) in c.tables then (task.connection, task.table) else (task.connection, "")
  }

  /** The pool of a registered Agent; none for one that is not registered. */
  function PoolOf(agents: seq<Agent>, id: string): string {
    if agents == [] then ""
    else if agents[0].id == id then agents[0].pool
    else PoolOf(agents[1..], id)
  }

  function Bump(env: Env, c: Counters, claim: Claim): Counters {
    Counters(Increment(c.agents, claim.agent), Increment(c.datasets, ScopeOf(env.config, claim.task)),
             Increment(c.sources, claim.task.connection), if claim.counted != "" then Increment(c.pools, claim.counted) else c.pools)
  }

  // Eligible Agents.

  function Capacity(a: Agent): (r: nat)
    ensures r >= 1
  {
    if a.capacityHint < 1 then 1 else a.capacityHint
  }

  function AgentLimit(env: Env, job: Job, a: Agent): nat {
    if job.ownerShard.Some? then 1 else env.maxInflight * Capacity(a)
  }

  predicate Available(env: Env, c: Counters, job: Job, a: Agent) {
    && a.alive
    && (job.members.Some? ==> a.id in job.members.value)
    && a.materializer && !a.draining
    && (job.ownerShard.Some? ==> a.shard == job.ownerShard.value)
    && Get(c.agents, a.id) < AgentLimit(env, job, a)
  }

  datatype Candidate = Candidate(score: real, agent: Agent)

  function Scored(c: Counters, a: Agent): Candidate {
    Candidate((a.inflight + Get(c.agents, a.id)) as real / Capacity(a) as real, a)
  }

  function Candidates(env: Env, c: Counters, job: Job, agents: seq<Agent>): seq<Candidate> {
    if agents == [] then []
    else
      var last := agents[|agents| - 1];
      Candidates(env, c, job, agents[..|agents| - 1]) + (if Available(env, c, job, last) then [Scored(c, last)] else [])
  }

  function Filter(cs: seq<Candidate>, keep: Agent -> bool): seq<Candidate> {
    if cs == [] then []
    else if keep(cs[0].agent) then [cs[0]] + Filter(cs[1..], keep)
    else Filter(cs[1..], keep)
  }

  predicate Pinning(p: Policy) {
    p.requiredPool != "" || p.requiredLocation != "" || p.requiredStore != "" || p.fallbackPools != []
  }

  predicate VersionBelow11(v: (int, int)) {
    v.0 < 1 || (v.0 == 1 && v.1 < 1)
  }

  predicate BelowLimit(count: nat, limit: Option<nat>) {
    limit.Some? ==> count < limit.value
  }

  /** `matching`: the Agent may take a task under the policy, in pool `target` if one is given. */
  predicate Matching(env: Env, c: Counters, task: Task, p: Policy, target: string, a: Agent) {
    && !(Pinning(p) && VersionBelow11(a.version))
    && a.pool in env.config.pools
    && (target != "" ==> a.pool == target)
    && Allows(env.config.pools[a.pool], task.connection, task.table, env.matches)
    && (p.requiredLocation != "" ==> env.config.pools[a.pool].location == p.requiredLocation)
    && (p.requiredStore != "" ==> env.config.pools[a.pool].store == p.requiredStore)
    && BelowLimit(Get(c.pools, a.pool), env.config.pools[a.pool].maxConcurrency)
  }

  function MatchingIn(env: Env, c: Counters, task: Task, p: Policy, target: string, cs: seq<Candidate>): seq<Candidate> {
    Filter(cs, (a: Agent) => Matching(env, c, task, p, target, a))
  }

  /** The candidates of the first target pool that has any. */
  function FirstTarget(env: Env, c: Counters, task: Task, p: Policy, cs: seq<Candidate>, targets: seq<string>): seq<Candidate> {
    if targets == [] then []
    else
      var eligible := MatchingIn(env, c, task, p, targets[0], cs);
      if eligible != [] then eligible else FirstTarget(env, c, task, p, cs, targets[1..])
  }

  function InTenant(env: Env, task: Task, cs: seq<Candidate>): seq<Candidate> {
    if env.config.tenants == {} then cs else Filter(cs, (a: Agent) => a.tenant == task.tenant)
  }

  function PlacementEligible(env: Env, c: Counters, task: Task, p: Policy, all: seq<Candidate>): seq<Candidate> {
    var cs := InTenant(env, task, all);
    if !ValidTaskTenant(env.config, task.tenant, p) || !ValidDispatch(env.config, p, task.connection) then []
    else if !env.config.Enabled() then cs
    else if !BelowLimit(Get(c.sources, task.connection), p.sourceMaxConcurrency) then []
    else if !BelowLimit(Get(c.datasets, ScopeOf(env.config, task)), p.maxConcurrency) then []
    else if Targets(p) != [] then FirstTarget(env, c, task, p, cs, Targets(p))
    else MatchingIn(env, c, task, p, "", cs)
  }

  /** Lower score first, then the lower tie-break. */
  predicate Better(env: Env, task: Task, a: Candidate, b: Candidate) {
    a.score < b.score || (a.score == b.score && env.tieBreak(task.id, a.agent.id) < env.tieBreak(task.id, b.agent.id))
  }

  function Best(env: Env, task: Task, cs: seq<Candidate>): (r: Candidate)
    requires cs != []
    ensures r in cs
  {
    if |cs| == 1 then cs[0]
    else
      var rest := Best(env, task, cs[..|cs| - 1]);
      if Better(env, task, cs[|cs| - 1], rest) then cs[|cs| - 1] else rest
  }

  // One pass.

  datatype State = State(counters: Counters, claims: seq<Claim>)

  /** The Agent that a task goes to, if any. */
  function Assign(env: Env, c: Counters, job: Job): Option<Agent> {
    var task := job.task;
    var p := PolicyFor(env.config, task.connection, task.table);
    if job.fenced || !ValidTaskTenant(env.config, task.tenant, p) || !ValidDispatch(env.config, p, task.connection) then None
    else
      var eligible := PlacementEligible(env, c, task, p, Candidates(env, c, job, job.agents));
      if eligible == [] then None
      else
        var a := Best(env, task, eligible).agent;
        if a.id !in job.present || !job.accepted then None else Some(a)
  }

  function Issued(job: Job, a: Agent): Claim {
    Claim(job.task, a.id, a.pool, if a.id in job.later then a.pool else "")
  }

  function Step(env: Env, s: State, job: Job): State {
    match Assign(env, s.counters, job)
    case None => s
    case Some(a) => State(Bump(env, s.counters, Issued(job, a)), s.claims + [Issued(job, a)])
  }

  function Run(env: Env, s: State, jobs: seq<Job>): State {
    if jobs == [] then s else Step(env, Run(env, s, jobs[..|jobs| - 1]), jobs[|jobs| - 1])
  }

  function CountersOf(env: Env, claims: seq<Claim>): Counters {
    if claims == [] then Counters(map[], map[], map[], map[])
    else Bump(env, CountersOf(env, claims[..|claims| - 1]), claims[|claims| - 1])
  }

  function ClaimOf(h: Holding): Claim {
    var pool := PoolOf(h.agents, h.agent);
    Claim(h.task, h.agent, pool, pool)
  }

  /** The state in which a pass begins, given the claims held. */
  function Start(env: Env, claims: seq<Claim>): State {
    State(CountersOf(env, claims), claims)
  }

  method EligibleAgents(env: Env, c: Counters, job: Job) returns (result: seq<Candidate>)
    ensures result == Candidates(env, c, job, job.agents)
  {
    result := [];
    var i := 0;
    while i < |job.agents|
      invariant 0 <= i <= |job.agents|
      invariant result == Candidates(env, c, job, job.agents[..i])
    {
      var a := job.agents[i];
      assert job.agents[..i + 1][..i] == job.agents[..i];
      if Available(env, c, job, a) {
        result := result + [Scored(c, a)];
      }
      i := i + 1;
    }
    assert job.agents[..i] == job.agents;
  }

  /** Counts the claims already held, as the pass begins. */
  method CountClaims(env: Env, held: seq<Holding>) returns (c: Counters, claims: seq<Claim>)
    ensures claims == Map(ClaimOf, held) && c == CountersOf(env, claims)
  {
    var agents, sources, pools: map<string, nat> := map[], map[], map[];
    var datasets: map<Scope, nat> := map[];
    claims := [];
    var i := 0;
    while i < |held|
      invariant 0 <= i <= |held| && |claims| == i
      invariant forall k | 0 <= k < i :: claims[k] == ClaimOf(held[k])
      invariant Counters(agents, datasets, sources, pools) == CountersOf(env, claims)
    {
      var current := held[i];
      var pool := PoolOf(current.agents, current.agent);
      CountersSnoc(env, claims, ClaimOf(current));
      agents := Increment(agents, current.agent);
      datasets := Increment(datasets, ScopeOf(env.config, current.task));
      sources := Increment(sources, current.task.connection);
      if pool != "" {
        pools := Increment(pools, pool);
      }
      claims := claims + [ClaimOf(current)];
      i := i + 1;
    }
    assert claims == Map(ClaimOf, held);
    c := Counters(agents, datasets, sources, pools);
  }

  /** The dispatch loop; `claims` are those held before and those issued, in order. */
  method DispatchOnce(env: Env, held: seq<Holding>, runnable: seq<Job>) returns (claims: seq<Claim>)
    ensures claims == Run(env, Start(env, Map(ClaimOf, held)), runnable).claims
  {
    hide PlacementEligible, ValidDispatch, Candidates;
    var c;
    c, claims := CountClaims(env, held);
    ghost var start := State(c, claims);
    var i := 0;
    while i < |runnable|
      invariant 0 <= i <= |runnable|
      invariant State(c, claims) == Run(env, start, runnable[..i])
    {
      var job := runnable[i];
      var task := job.task;
      assert runnable[..i + 1][..i] == runnable[..i];
      i := i + 1;
      if job.fenced {
        continue;
      }
      var policy := PolicyFor(env.config, task.connection, task.table);
      if !ValidTaskTenant(env.config, task.tenant, policy) || !ValidDispatch(env.config, policy, task.connection) {
        continue;
      }
      var agents := EligibleAgents(env, c, job);
      agents := PlacementEligible(env, c, task, policy, agents);
      if agents == [] {
        continue;
      }
      var agent := Best(env, task, agents).agent;
      if agent.id !in job.present || !job.accepted {
        continue;
      }
      claims := claims + [Issued(job, agent)];
      c := Bump(env, c, Issued(job, agent));
    }
    assert runnable[..i] == runnable;
  }

  // What an assignment means.

  lemma {:induction false} FilterKeeps(cs: seq<Candidate>, keep: Agent -> bool, x: Candidate)
    ensures x in Filter(cs, keep) <==> x in cs && keep(x.agent)
  {
    if cs != [] {
      FilterKeeps(cs[1..], keep, x);
      assert cs == [cs[0]] + cs[1..];
    }
  }

  lemma {:induction false} CandidatesAreAvailable(env: Env, c: Counters, job: Job, agents: seq<Agent>, x: Candidate)
    ensures x in Candidates(env, c, job, agents) <==> x.agent in agents && Available(env, c, job, x.agent) && x == Scored(c, x.agent)
  {
    if agents != [] {
      var last := agents[|agents| - 1];
      CandidatesAreAvailable(env, c, job, agents[..|agents| - 1], x);
      assert agents == agents[..|agents| - 1] + [last];
    }
  }

  /** The Agent could run the task: alive, a materializer with room, and of the task's generation, shard and tenant. */
  ghost predicate CanRun(env: Env, c: Counters, job: Job, a: Agent) {
    && a in job.agents && a.alive && a.materializer && !a.draining
    && (job.members.Some? ==> a.id in job.members.value)
    && (job.ownerShard.Some? ==> a.shard == job.ownerShard.value && Get(c.agents, a.id) == 0)
    && (job.ownerShard.None? ==> Get(c.agents, a.id) < env.maxInflight * (if a.capacityHint > 1 then a.capacityHint else 1))
    && (env.config.tenants != {} ==> a.tenant == job.task.tenant)
  }

  /** Its pool may take tasks of the dataset, has room, and is where the policy wants it. */
  ghost predicate Fits(env: Env, c: Counters, task: Task, p: Policy, a: Agent) {
    && a.pool in env.config.pools
    && var pool := env.config.pools[a.pool];
    && task.connection != "" && task.connection in pool.connections
    && (pool.patterns == [] || exists pattern | pattern in pool.patterns :: env.matches(task.table, pattern))
    && p.requiredLocation in {"", pool.location} && p.requiredStore in {"", pool.store}
    && AtMost(Get(c.pools, a.pool) + 1, pool.maxConcurrency)
    && (|| (p.requiredPool == "" && p.requiredLocation == "" && p.requiredStore == "" && p.fallbackPools == [])
        || a.version.0 > 1 || (a.version.0 == 1 && a.version.1 >= 1))
  }

  /** No Agent that could run the task fits in pool `target`. */
  ghost predicate NobodyFits(env: Env, c: Counters, job: Job, p: Policy, target: string) {
    forall b | CanRun(env, c, job, b) && target in {"", b.pool} :: !Fits(env, c, job.task, p, b)
  }

  /** `a` is in target pool number `i`, and no Agent that could run the task fits an earlier one. */
  ghost predicate InTarget(env: Env, c: Counters, job: Job, p: Policy, targets: seq<string>, i: nat, a: Agent)
    requires i < |targets|
  {
    targets[i] in {"", a.pool} && forall j | 0 <= j < i :: NobodyFits(env, c, job, p, targets[j])
  }

  /** `a` is in the first of `targets` that has an Agent for the task. */
  ghost predicate InFirst(env: Env, c: Counters, job: Job, p: Policy, targets: seq<string>, a: Agent) {
    exists i :: 0 <= i < |targets| && InTarget(env, c, job, p, targets, i, a)
  }

  /** Why an Agent may get a task, given the counts before. */
  ghost predicate Admissible(env: Env, c: Counters, job: Job, a: Agent) {
    var task := job.task;
    var p := PolicyFor(env.config, task.connection, task.table);
    && CanRun(env, c, job, a)
    && (if env.config.tenants == {} then task.tenant == "" else task.tenant == p.tenant != "")
    && ValidDispatch(env.config, p, task.connection)
    && (env.config.Enabled() ==>
          && AtMost(Get(c.sources, task.connection) + 1, p.sourceMaxConcurrency)
          && AtMost(Get(c.datasets, ScopeOf(env.config, task)) + 1, p.maxConcurrency)
          && Fits(env, c, task, p, a)
          && (Targets(p) == [] || InFirst(env, c, job, p, Targets(p), a)))
  }

  /** `cs` are the candidates of the pass: the Agents that could run the task, with their scores. */
  ghost predicate AreCandidates(env: Env, c: Counters, job: Job, cs: seq<Candidate>) {
    forall x :: x in cs <==> CanRun(env, c, job, x.agent) && x == Scored(c, x.agent)
  }

  lemma AvailableMeans(env: Env, c: Counters, job: Job, a: Agent)
    ensures CanRun(env, c, job, a) <==>
            a in job.agents && Available(env, c, job, a) && (env.config.tenants != {} ==> a.tenant == job.task.tenant)
  {
  }

  lemma InTenantCandidates(env: Env, c: Counters, job: Job)
    ensures AreCandidates(env, c, job, InTenant(env, job.task, Candidates(env, c, job, job.agents)))
  {
    hide Available, CanRun;
    var all := Candidates(env, c, job, job.agents);
    forall x
      ensures x in InTenant(env, job.task, all) <==> CanRun(env, c, job, x.agent) && x == Scored(c, x.agent)
    {
      AvailableMeans(env, c, job, x.agent);
      CandidatesAreAvailable(env, c, job, job.agents, x);
      FilterKeeps(all, (a: Agent) => a.tenant == job.task.tenant, x);
    }
  }

  lemma MatchingMeans(env: Env, c: Counters, task: Task, p: Policy, target: string, a: Agent)
    ensures Matching(env, c, task, p, target, a) <==> Fits(env, c, task, p, a) && target in {"", a.pool}
  {
  }

  lemma MatchingInMeans(env: Env, c: Counters, job: Job, p: Policy, target: string, cs: seq<Candidate>, x: Candidate)
    requires AreCandidates(env, c, job, cs)
    ensures x in MatchingIn(env, c, job.task, p, target, cs) <==>
            x in cs && Fits(env, c, job.task, p, x.agent) && target in {"", x.agent.pool}
  {
    hide Matching, Fits;
    FilterKeeps(cs, (a: Agent) => Matching(env, c, job.task, p, target, a), x);
    MatchingMeans(env, c, job.task, p, target, x.agent);
  }

  lemma NoneMatch(env: Env, c: Counters, job: Job, p: Policy, target: string, cs: seq<Candidate>)
    requires AreCandidates(env, c, job, cs)
    ensures MatchingIn(env, c, job.task, p, target, cs) == [] <==> NobodyFits(env, c, job, p, target)
  {
    hide Matching, Fits, CanRun, MatchingIn;
    var found := MatchingIn(env, c, job.task, p, target, cs);
    forall b | CanRun(env, c, job, b) && target in {"", b.pool}
      ensures Fits(env, c, job.task, p, b) ==> Scored(c, b) in found
    {
      MatchingInMeans(env, c, job, p, target, cs, Scored(c, b));
    }
    if found != [] {
      MatchingInMeans(env, c, job, p, target, cs, found[0]);
    }
  }

  /** The candidates of the first target with any are those in the first target with any. */
  lemma {:induction false} FirstTargetMeans(env: Env, c: Counters, job: Job, p: Policy, cs: seq<Candidate>, targets: seq<string>,
                                            x: Candidate)
    requires AreCandidates(env, c, job, cs)
    ensures x in FirstTarget(env, c, job.task, p, cs, targets) <==>
            x in cs && Fits(env, c, job.task, p, x.agent) && InFirst(env, c, job, p, targets, x.agent)
    decreases targets
  {
    hide Matching, MatchingIn, Fits, CanRun, NobodyFits;
    if targets != [] {
      MatchingInMeans(env, c, job, p, targets[0], cs, x);
      NoneMatch(env, c, job, p, targets[0], cs);
      if MatchingIn(env, c, job.task, p, targets[0], cs) != [] {
        FirstIsFirst(env, c, job, p, targets, x.agent);
      } else {
        FirstTargetMeans(env, c, job, p, cs, targets[1..], x);
        if CanRun(env, c, job, x.agent) && Fits(env, c, job.task, p, x.agent) {
          FirstIsLater(env, c, job, p, targets, x.agent);
        }
      }
    }
  }

  lemma FirstIsFirst(env: Env, c: Counters, job: Job, p: Policy, targets: seq<string>, a: Agent)
    requires targets != [] && !NobodyFits(env, c, job, p, targets[0])
    ensures InFirst(env, c, job, p, targets, a) <==> targets[0] in {"", a.pool}
  {
    hide Fits, CanRun;
    if targets[0] in {"", a.pool} {
      assert InTarget(env, c, job, p, targets, 0, a);
    }
  }

  lemma FirstIsLater(env: Env, c: Counters, job: Job, p: Policy, targets: seq<string>, a: Agent)
    requires targets != [] && NobodyFits(env, c, job, p, targets[0])
    requires CanRun(env, c, job, a) && Fits(env, c, job.task, p, a)
    ensures InFirst(env, c, job, p, targets, a) <==> InFirst(env, c, job, p, targets[1..], a)
  {
    hide Fits, CanRun;
    if InFirst(env, c, job, p, targets, a) {
      var i :| 0 <= i < |targets| && InTarget(env, c, job, p, targets, i, a);
      assert i > 0;
      assert InTarget(env, c, job, p, targets[1..], i - 1, a) by {
        assert forall j | 0 <= j < i - 1 :: targets[1..][j] == targets[j + 1];
      }
    }
    if InFirst(env, c, job, p, targets[1..], a) {
      var i :| 0 <= i < |targets[1..]| && InTarget(env, c, job, p, targets[1..], i, a);
      assert InTarget(env, c, job, p, targets, i + 1, a) by {
        assert forall j | 0 < j <= i :: targets[j] == targets[1..][j - 1];
      }
    }
  }

  /** The Agents that the placement check leaves are exactly the admissible ones. */
  lemma EligibleIffAdmissible(env: Env, c: Counters, job: Job, x: Candidate)
    ensures var p := PolicyFor(env.config, job.task.connection, job.task.table);
            x in PlacementEligible(env, c, job.task, p, Candidates(env, c, job, job.agents)) <==>
                 Admissible(env, c, job, x.agent) && x == Scored(c, x.agent)
  {
    hide Candidates, InTenant, FirstTarget, MatchingIn, CanRun, ValidDispatch, Fits, InFirst;
    var p := PolicyFor(env.config, job.task.connection, job.task.table);
    var cs := InTenant(env, job.task, Candidates(env, c, job, job.agents));
    InTenantCandidates(env, c, job);
    FirstTargetMeans(env, c, job, p, cs, Targets(p), x);
    MatchingInMeans(env, c, job, p, "", cs, x);
  }

  /** How loaded an Agent is for its capacity, with the claims it holds. */
  ghost function Load(c: Counters, a: Agent): real {
    (a.inflight + Get(c.agents, a.id)) as real / (if a.capacityHint > 1 then a.capacityHint else 1) as real
  }

  /** `a` is admissible, and no admissible Agent is less loaded, or as loaded and before it in the tie-break. */
  ghost predicate Chosen(env: Env, c: Counters, job: Job, a: Agent) {
    && Admissible(env, c, job, a)
    && forall b | Admissible(env, c, job, b) ::
         && Load(c, a) <= Load(c, b)
         && (Load(c, a) == Load(c, b) ==> env.tieBreak(job.task.id, a.id) <= env.tieBreak(job.task.id, b.id))
  }

  lemma BestIsChosen(env: Env, c: Counters, job: Job)
    requires var p := PolicyFor(env.config, job.task.connection, job.task.table);
             PlacementEligible(env, c, job.task, p, Candidates(env, c, job, job.agents)) != []
    ensures var p := PolicyFor(env.config, job.task.connection, job.task.table);
            Chosen(env, c, job, Best(env, job.task, PlacementEligible(env, c, job.task, p, Candidates(env, c, job, job.agents))).agent)
  {
    hide Candidates, PlacementEligible, Admissible, PolicyFor, Best;
    var p := PolicyFor(env.config, job.task.connection, job.task.table);
    var eligible := PlacementEligible(env, c, job.task, p, Candidates(env, c, job, job.agents));
    var best := Best(env, job.task, eligible);
    EligibleIffAdmissible(env, c, job, best);
    forall b | Admissible(env, c, job, b)
      ensures && Load(c, best.agent) <= Load(c, b)
              && (Load(c, best.agent) == Load(c, b) ==> env.tieBreak(job.task.id, best.agent.id) <= env.tieBreak(job.task.id, b.id))
    {
      EligibleIffAdmissible(env, c, job, Scored(c, b));
      BestIsLeast(env, job.task, eligible, Scored(c, b));
    }
  }

  /**
    * A task that is not fenced goes to the least loaded admissible Agent, if there is one; it goes to nobody only if the
    * Agent chosen has left the registry or the claim is not accepted.
    */
  lemma AssignedIsChosen(env: Env, c: Counters, job: Job)
    ensures match Assign(env, c, job)
            case Some(a) => !job.fenced && a.id in job.present && job.accepted && Chosen(env, c, job, a)
            case None => job.fenced || (forall b :: !Admissible(env, c, job, b))
                         || exists b :: Chosen(env, c, job, b) && !(b.id in job.present && job.accepted)
  {
    hide Candidates, PlacementEligible, CanRun, Fits, InFirst, Best, PolicyFor, Chosen, ValidDispatch;
    var p := PolicyFor(env.config, job.task.connection, job.task.table);
    var eligible := PlacementEligible(env, c, job.task, p, Candidates(env, c, job, job.agents));
    if eligible != [] {
      BestIsChosen(env, c, job);
      EligibleIffAdmissible(env, c, job, Best(env, job.task, eligible));
    }
    forall b | Admissible(env, c, job, b)
      ensures Scored(c, b) in eligible
    {
      EligibleIffAdmissible(env, c, job, Scored(c, b));
    }
  }

  /** With one Agent, any pool named by the policy is the first that has one. */
  lemma LoneTarget(env: Env, c: Counters, job: Job, p: Policy, targets: seq<string>, b: Agent)
    requires job.agents == [b] && b.pool in targets && forall i | 0 <= i < |targets| :: targets[i] != ""
    ensures InFirst(env, c, job, p, targets, b)
  {
    var i := 0;
    while targets[i] != b.pool
      invariant 0 <= i < |targets| && b.pool !in targets[..i]
      decreases |targets| - i
    {
      assert b.pool in targets[i + 1..] by { assert targets == targets[..i] + [targets[i]] + targets[i + 1..]; }
      i := i + 1;
    }
    forall j | 0 <= j < i
      ensures NobodyFits(env, c, job, p, targets[j])
    {
      assert targets[j] == targets[..i][j];
    }
    assert InTarget(env, c, job, p, targets, i, b);
  }

  /** If the only Agent of a job can run it and fits, and no limit is reached, it gets the task. */
  lemma LoneAgent(env: Env, c: Counters, job: Job, b: Agent)
    requires job.agents == [b] && CanRun(env, c, job, b) && !job.fenced && b.id in job.present && job.accepted
    requires var p := PolicyFor(env.config, job.task.connection, job.task.table);
             && ValidTaskTenant(env.config, job.task.tenant, p) && ValidDispatch(env.config, p, job.task.connection)
             && AtMost(Get(c.sources, job.task.connection) + 1, p.sourceMaxConcurrency)
             && AtMost(Get(c.datasets, ScopeOf(env.config, job.task)) + 1, p.maxConcurrency)
             && Fits(env, c, job.task, p, b) && (Targets(p) == [] || b.pool in Targets(p))
             && forall i | 0 <= i < |Targets(p)| :: Targets(p)[i] != ""
    ensures Assign(env, c, job) == Some(b)
  {
    hide Assign, PolicyFor, ValidDispatch, Fits, InFirst;
    var p := PolicyFor(env.config, job.task.connection, job.task.table);
    if Targets(p) != [] {
      LoneTarget(env, c, job, p, Targets(p), b);
    }
    assert Admissible(env, c, job, b);
    AssignedIsChosen(env, c, job);
  }

  lemma RunOne(env: Env, s: State, job: Job)
    ensures Run(env, s, [job]) == Step(env, s, job)
  {
    hide Step;
    assert [job][..0] == [] && Run(env, s, []) == s;
  }

  lemma {:induction false} BestIsLeast(env: Env, task: Task, cs: seq<Candidate>, x: Candidate)
    requires x in cs
    ensures !Better(env, task, x, Best(env, task, cs))
  {
    if |cs| > 1 {
      var n := |cs| - 1;
      assert cs == cs[..n] + [cs[n]];
      if x in cs[..n] {
        BestIsLeast(env, task, cs[..n], x);
      }
    }
  }

  // Counting claims.

  function Count<K(==)>(claims: seq<Claim>, key: Claim -> K, k: K): nat {
    if claims == [] then 0
    else Count(claims[..|claims| - 1], key, k) + (if key(claims[|claims| - 1]) == k then 1 else 0)
  }

  function AgentKey(): Claim -> string {
    (claim: Claim) => claim.agent
  }

  function SourceKey(): Claim -> string {
    (claim: Claim) => claim.task.connection
  }

  function ScopeKey(env: Env): Claim -> Scope {
    (claim: Claim) => ScopeOf(env.config, claim.task)
  }

  function PoolKey(): Claim -> string {
    (claim: Claim) => claim.counted
  }

  lemma CountSnoc<K>(claims: seq<Claim>, claim: Claim, key: Claim -> K, k: K)
    ensures Count(claims + [claim], key, k) == Count(claims, key, k) + (if key(claim) == k then 1 else 0)
  {
    assert (claims + [claim])[..|claims|] == claims;
  }

  /** The counters are the numbers of claims. */
  lemma {:induction false} CountersCount(env: Env, claims: seq<Claim>)
    ensures var c := CountersOf(env, claims);
            && (forall a :: Get(c.agents, a) == Count(claims, AgentKey(), a))
            && (forall k :: Get(c.sources, k) == Count(claims, SourceKey(), k))
            && (forall k :: Get(c.datasets, k) == Count(claims, ScopeKey(env), k))
            && (forall p | p != "" :: Get(c.pools, p) == Count(claims, PoolKey(), p))
  {
    if claims != [] {
      CountersCount(env, claims[..|claims| - 1]);
    }
  }

  lemma CountersSnoc(env: Env, claims: seq<Claim>, claim: Claim)
    ensures CountersOf(env, claims + [claim]) == Bump(env, CountersOf(env, claims), claim)
  {
    assert (claims + [claim])[..|claims|] == claims;
  }

  predicate AtMost(count: nat, limit: Option<nat>) {
    limit.Some? ==> count <= limit.value
  }

  /** The limits in force for a task hold when the claim is counted. */
  ghost predicate WithinLimits(env: Env, claims: seq<Claim>, job: Job, a: Agent) {
    var p := PolicyFor(env.config, job.task.connection, job.task.table);
    && Count(claims, AgentKey(), a.id) <= AgentLimit(env, job, a)
    && (env.config.Enabled() ==>
          && AtMost(Count(claims, SourceKey(), job.task.connection), p.sourceMaxConcurrency)
          && AtMost(Count(claims, ScopeKey(env), ScopeOf(env.config, job.task)), p.maxConcurrency)
          && a.pool in env.config.pools
          && AtMost(Count(claims, PoolKey(), a.pool), env.config.pools[a.pool].maxConcurrency))
  }

  /**
    * `claim` was issued for `job` to the least loaded Agent that was admissible after `before`, still registered, and
    * keeps every limit; it counts for its pool if the Agent is still there.
    */
  ghost predicate Justified(env: Env, before: seq<Claim>, claim: Claim, job: Job, a: Agent) {
    && claim.task == job.task && claim.agent == a.id && claim.pool == a.pool
    && claim.counted == (if a.id in job.later then a.pool else "")
    && !job.fenced && a.id in job.present && job.accepted
    && Chosen(env, CountersOf(env, before), job, a)
    && WithinLimits(env, before + [claim], job, a)
  }

  lemma InFirstIsNamed(env: Env, c: Counters, job: Job, p: Policy, targets: seq<string>, a: Agent)
    requires InFirst(env, c, job, p, targets, a) && forall i | 0 <= i < |targets| :: targets[i] != ""
    ensures a.pool in targets
  {
    var i :| 0 <= i < |targets| && InTarget(env, c, job, p, targets, i, a);
  }

  lemma AdmissibleMatches(env: Env, c: Counters, job: Job, a: Agent)
    requires Admissible(env, c, job, a) && env.config.Enabled()
    ensures Matching(env, c, job.task, PolicyFor(env.config, job.task.connection, job.task.table), "", a)
  {
    hide PolicyFor, ValidDispatch, InFirst, CanRun;
    MatchingMeans(env, c, job.task, PolicyFor(env.config, job.task.connection, job.task.table), "", a);
  }

  lemma AdmissibleIsWithinLimits(env: Env, before: seq<Claim>, job: Job, a: Agent)
    requires Admissible(env, CountersOf(env, before), job, a)
    requires "" !in env.config.pools
    ensures WithinLimits(env, before + [Issued(job, a)], job, a)
  {
    hide ValidDispatch, InFirst, PolicyFor, Count, CountersOf;
    var task, claim := job.task, Issued(job, a);
    CountersCount(env, before);
    CountSnoc(before, claim, AgentKey(), a.id);
    CountSnoc(before, claim, SourceKey(), task.connection);
    CountSnoc(before, claim, ScopeKey(env), ScopeOf(env.config, task));
    CountSnoc(before, claim, PoolKey(), a.pool);
  }

  ghost predicate Running(env: Env, s: State) {
    s == Start(env, s.claims)
  }

  /** Why a task is left in the queue: it is fenced, no Agent is admissible, or the one chosen is gone or not accepted. */
  ghost predicate Unserved(env: Env, before: seq<Claim>, job: Job) {
    var c := CountersOf(env, before);
    || job.fenced
    || (forall b :: !Admissible(env, c, job, b))
    || exists b :: Chosen(env, c, job, b) && !(b.id in job.present && job.accepted)
  }

  /** A step issues a claim that is justified, or none, for one of three reasons. */
  lemma StepIsJustified(env: Env, s: State, job: Job)
    requires Running(env, s) && "" !in env.config.pools
    ensures var next := Step(env, s, job);
            && Running(env, next)
            && (|| (next == s && Unserved(env, s.claims, job))
                || exists claim, a :: Justified(env, s.claims, claim, job, a) && next.claims == s.claims + [claim])
  {
    hide Assign, Admissible, Bump, WithinLimits;
    var chosen := Assign(env, s.counters, job);
    AssignedIsChosen(env, s.counters, job);
    if chosen.Some? {
      var claim := Issued(job, chosen.value);
      AdmissibleIsWithinLimits(env, s.claims, job, chosen.value);
      CountersSnoc(env, s.claims, claim);
      assert Justified(env, s.claims, claim, job, chosen.value) && Step(env, s, job).claims == s.claims + [claim];
    }
  }

  ghost predicate SomeoneJustified(env: Env, jobs: seq<Job>, before: seq<Claim>, claim: Claim) {
    exists job, a :: job in jobs && Justified(env, before, claim, job, a)
  }

  /** Every claim of a pass leaves all four counts within the limits in force for its task. */
  lemma {:induction false} EveryClaimIsJustified(env: Env, claimed: seq<Claim>, jobs: seq<Job>)
    requires "" !in env.config.pools
    ensures var s := Run(env, Start(env, claimed), jobs);
            && Running(env, s)
            && claimed <= s.claims
            && forall k | |claimed| <= k < |s.claims| :: SomeoneJustified(env, jobs, s.claims[..k], s.claims[k])
  {
    hide Step, Justified, CountersOf;
    if jobs != [] {
      var earlier, last := jobs[..|jobs| - 1], jobs[|jobs| - 1];
      var before := Run(env, Start(env, claimed), earlier);
      EveryClaimIsJustified(env, claimed, earlier);
      StepIsJustified(env, before, last);
      var s := Run(env, Start(env, claimed), jobs);
      forall k | |claimed| <= k < |s.claims|
        ensures SomeoneJustified(env, jobs, s.claims[..k], s.claims[k])
      {
        if k < |before.claims| {
          assert s.claims[..k] == before.claims[..k] && s.claims[k] == before.claims[k];
          var job, a :| job in earlier && Justified(env, s.claims[..k], s.claims[k], job, a);
          assert job in jobs && Justified(env, s.claims[..k], s.claims[k], job, a);
        } else {
          assert s.claims[..k] == before.claims;
          var claim, a :| Justified(env, before.claims, claim, last, a) && s.claims == before.claims + [claim];
          assert last in jobs && Justified(env, s.claims[..k], s.claims[k], last, a);
        }
      }
    }
  }

  /** Tables with an override count by themselves, all others of a connection together. */
  lemma ScopeMeans(c: Config, s: Task, t: Task)
    requires forall k | k in c.tables :: k.1 != ""
    ensures ScopeOf(c, s) == ScopeOf(c, t) <==>
            && s.connection == t.connection
            && (s.table == t.table || ((s.connection, s.table) !in c.tables && (t.connection, t.table) !in c.tables))
  {
  }

  /** Every task of a pass gets a justified claim, or is left in the queue for a reason. */
  lemma EveryTaskIsServed(env: Env, claimed: seq<Claim>, jobs: seq<Job>, k: nat)
    requires "" !in env.config.pools && k < |jobs|
    ensures var before, after := Run(env, Start(env, claimed), jobs[..k]), Run(env, Start(env, claimed), jobs[..k + 1]);
            || (after == before && Unserved(env, before.claims, jobs[k]))
            || exists claim, a :: Justified(env, before.claims, claim, jobs[k], a) && after.claims == before.claims + [claim]
  {
    hide Step, Justified, CountersOf, Unserved;
    EveryClaimIsJustified(env, claimed, jobs[..k]);
    StepIsJustified(env, Run(env, Start(env, claimed), jobs[..k]), jobs[k]);
    assert jobs[..k + 1][..k] == jobs[..k];
  }

  // The boundary, over whole passes.

  /** The pool lies in the residency of the connection and writes to the active store, which lies in it too. */
  predicate Inside(c: Config, connection: string, pool: string)
    requires connection in c.connections
  {
    var residency := c.connections[connection].residency;
    && pool in c.pools && c.pools[pool].location in residency && c.pools[pool].store == c.activeStore
    && c.activeStore in c.stores && c.stores[c.activeStore].location in residency
  }

  lemma AdmissibleIsInside(env: Env, c: Counters, job: Job, a: Agent)
    requires Admissible(env, c, job, a) && "" !in env.config.pools
    requires job.task.connection in env.config.connections && env.config.connections[job.task.connection].residency != {}
    ensures Inside(env.config, job.task.connection, a.pool)
  {
    hide Fits, CanRun, InFirst, ValidTenant;
    var task := job.task;
    var p := PolicyFor(env.config, task.connection, task.table);
    assert forall i | 0 <= i < |Targets(p)| :: PoolInside(env.config, p, Targets(p)[i]);
    InFirstIsNamed(env, c, job, p, Targets(p), a);
    DispatchStaysInside(env.config, task.connection, task.table, a.pool);
  }

  /** Under a connection with residency, a claim of any pass goes to a pool inside it, through overrides and fallbacks. */
  lemma ClaimsStayInside(env: Env, claimed: seq<Claim>, jobs: seq<Job>, k: nat)
    requires "" !in env.config.pools
    requires |claimed| <= k < |Run(env, Start(env, claimed), jobs).claims|
    requires var claim := Run(env, Start(env, claimed), jobs).claims[k];
             claim.task.connection in env.config.connections && env.config.connections[claim.task.connection].residency != {}
    ensures var claim := Run(env, Start(env, claimed), jobs).claims[k]; Inside(env.config, claim.task.connection, claim.pool)
  {
    hide Admissible, WithinLimits, CountersOf, Run;
    var claims := Run(env, Start(env, claimed), jobs).claims;
    EveryClaimIsJustified(env, claimed, jobs);
    assert SomeoneJustified(env, jobs, claims[..k], claims[k]);
    var job, a :| job in jobs && Justified(env, claims[..k], claims[k], job, a);
    AdmissibleIsInside(env, CountersOf(env, claims[..k]), job, a);
  }

  /** The Agent, its pool and the policy of a claim belong to the tenant of its task; so does a required store. */
  ghost predicate SharesTenant(env: Env, task: Task, a: Agent) {
    var p := PolicyFor(env.config, task.connection, task.table);
    && task.tenant in env.config.tenants && a.tenant == task.tenant && p.tenant == task.tenant
    && a.pool in env.config.pools && env.config.pools[a.pool].tenant == task.tenant
    && (p.requiredStore != "" ==>
          && env.config.pools[a.pool].store == p.requiredStore && p.requiredStore in env.config.stores
          && env.config.stores[p.requiredStore].tenant == task.tenant)
  }

  lemma AssignmentSharesTenant(env: Env, c: Counters, job: Job, a: Agent)
    requires Admissible(env, c, job, a) && env.config.tenants != {} && PoolsMatchConnections(env.config)
    ensures SharesTenant(env, job.task, a)
  {
    hide InFirst, ValidDispatch, PoolsMatchConnections, PolicyFor;
    DispatchSharesTenant(env.config, job.task.connection, job.task.table, job.task.tenant, a.pool);
  }

  ghost predicate HolderSharesTenant(env: Env, jobs: seq<Job>, claim: Claim) {
    exists job, a :: job in jobs && a in job.agents && claim == Issued(job, a) && SharesTenant(env, job.task, a)
  }

  /** With tenants declared, every claim of any pass stays within one tenant. */
  lemma ClaimsShareTenant(env: Env, claimed: seq<Claim>, jobs: seq<Job>, k: nat)
    requires "" !in env.config.pools && env.config.tenants != {} && PoolsMatchConnections(env.config)
    requires |claimed| <= k < |Run(env, Start(env, claimed), jobs).claims|
    ensures HolderSharesTenant(env, jobs, Run(env, Start(env, claimed), jobs).claims[k])
  {
    hide Admissible, WithinLimits, CountersOf, Run, PoolsMatchConnections, SharesTenant;
    var claims := Run(env, Start(env, claimed), jobs).claims;
    EveryClaimIsJustified(env, claimed, jobs);
    assert SomeoneJustified(env, jobs, claims[..k], claims[k]);
    var job, a :| job in jobs && Justified(env, claims[..k], claims[k], job, a);
    AdmissibleIsRegistered(env, CountersOf(env, claims[..k]), job, a);
    AssignmentSharesTenant(env, CountersOf(env, claims[..k]), job, a);
    assert job in jobs && a in job.agents && claims[k] == Issued(job, a) && SharesTenant(env, job.task, a);
  }

  lemma AdmissibleIsRegistered(env: Env, c: Counters, job: Job, a: Agent)
    requires Admissible(env, c, job, a)
    ensures a in job.agents
  {
  }
}
