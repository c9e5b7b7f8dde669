/** The registry object: every change is made in memory, written through the lease, and rolled back when that fails. */
module Registry {
  import opened Wrappers
  import opened Fleet
  import L = Lease

  /**
    * The environment of one call: the monotonic clock at its start and at a rollback, the wall clock of
    * the lease, and what other Managers write between each read and swap.
    */
  datatype Env = Env(now: int, later: int, wallMs: int, others: seq<Option<L.Record<Snapshot>>>)

  /** The record and outcome of persisting `agents` in term `fence`. */
  function Persisted(record: Option<L.Record<Snapshot>>, owner: L.OwnerId, fence: nat, agents: Agents, env: Env)
    : (r: (Option<L.Record<Snapshot>>, Result<nat, L.LeaseError>))
  {
    L.MutateRun(record, env.others, owner, fence, REGISTRY, TakeSnapshot(agents, env.now), env.wallMs)
  }

  /** A successful persist leaves the fleet in the durable record, with its ages at that moment. */
  lemma PersistedIsDurable(record: Option<L.Record<Snapshot>>, owner: L.OwnerId, fence: nat, agents: Agents, env: Env)
    requires Persisted(record, owner, fence, agents, env).1.Success?
    ensures IsDurable(Persisted(record, owner, fence, agents, env).0, agents, env.now)
  {
    hide L.MutateRun;
    SnapshotCaptures(agents, env.now);
    var _ := L.MutateRunExtendsLatest(record, env.others, owner, fence, REGISTRY, TakeSnapshot(agents, env.now), env.wallMs);
  }

  /** The record holds the fleet as it is at `now`. */
  ghost predicate IsDurable(record: Option<L.Record<Snapshot>>, agents: Agents, now: int) {
    record.Some? && REGISTRY in record.value.state && Captures(record.value.state[REGISTRY], agents, now)
  }

  class Registry {
    const placement: Placement
    const lease: L.LeaderLease<Snapshot>
    var agents: Agents
    var attached: bool

    constructor (placement: Placement, lease: L.LeaderLease<Snapshot>)
      ensures this.placement == placement && this.lease == lease && agents == map[] && !attached
    {
      this.placement, this.lease := placement, lease;
      agents, attached := map[], false;
    }

    /** `_persist_locked`: on failure the fleet of `before` is put back. */
    method Persist(before: Snapshot, env: Env) returns (r: Result<(), L.LeaseError>)
      requires |env.others| == 8
      modifies this`agents, lease, lease.store
      ensures !attached ==> r.Success? && agents == old(agents) && lease.store.record == old(lease.store.record)
      ensures attached ==>
                var (record, outcome) := Persisted(old(lease.store.record), lease.ownerId, old(lease.fence), old(agents), env);
                && lease.store.record == record
                && (r.Success? <==> outcome.Success?)
                && agents == if r.Success? then old(agents) else Restore(before, placement, env.later)
    {
      if !attached {
        return Success(());
      }
      var outcome := lease.MutateState(REGISTRY, TakeSnapshot(agents, env.now), env.wallMs, env.others);
      if outcome.Failure? {
        agents := Restore(before, placement, env.later);
        return Failure(outcome.error);
      }
      return Success(());
    }

    /** Restore the last durable fleet, then claim it for the active term; returns the term. */
    method AttachDurableState(restore: bool, env: Env) returns (r: Result<nat, L.LeaseError>)
      requires |env.others| == 8
      modifies this, lease, lease.store
      ensures attached
      ensures var record := old(lease.store.record);
              agents == if restore && record.Some? && REGISTRY in record.value.state
              then Restore(record.value.state[REGISTRY], placement, env.now) else old(agents)
      ensures (lease.store.record, r) == Persisted(old(lease.store.record), lease.ownerId, old(lease.fence), agents, env)
    {
      attached := true;
      var record := lease.store.record;
      if restore && record.Some? && REGISTRY in record.value.state {
        agents := Restore(record.value.state[REGISTRY], placement, env.now);
      }
      r := lease.MutateState(REGISTRY, TakeSnapshot(agents, env.now), env.wallMs, env.others);
    }

    /** The outcome every change shares: it is made and durable, or the fleet is rolled back. */
    ghost predicate Outcome(change: Change, env: Env, before: Agents, record: Option<L.Record<Snapshot>>, fence: nat, done: bool)
      requires Accepted(before, placement, change)
      reads this, lease.store
    {
      && Achieved(change, env, before, done)
      && var after := Changed(before, placement, change, env.now);
      if !attached then done && agents == after && lease.store.record == record
      else
        var (written, outcome) := Persisted(record, lease.ownerId, fence, after, env);
        && lease.store.record == written
        && (done <==> outcome.Success?)
        && agents == if done then after else Restore(TakeSnapshot(before, env.now), placement, env.later)
    }

    /** A change that is done is made, and durable if the registry is attached; one that is not leaves the fleet of before. */
    ghost predicate Achieved(change: Change, env: Env, before: Agents, done: bool)
      reads this, lease.store
    {
      if done then Makes(change, before, agents, placement, env.now) && (attached ==> IsDurable(lease.store.record, agents, env.now))
      else exists saved :: Captures(saved, before, env.now) && Recreates(agents, saved, placement, env.later)
    }

    /** What persisting an accepted change will leave: the change made and durable, or the fleet of before. */
    lemma PersistWillLeave(change: Change, env: Env)
      ensures Accepted(agents, placement, change) ==>
                var after := Changed(agents, placement, change, env.now);
                && Makes(change, agents, after, placement, env.now)
                && (Persisted(lease.store.record, lease.ownerId, lease.fence, after, env).1.Success? ==>
                      IsDurable(Persisted(lease.store.record, lease.ownerId, lease.fence, after, env).0, after, env.now))
                && Captures(TakeSnapshot(agents, env.now), agents, env.now)
                && Recreates(Restore(TakeSnapshot(agents, env.now), placement, env.later), TakeSnapshot(agents, env.now),
                             placement, env.later)
    {
      hide Makes, Captures, Recreates, Changed, Restore, TakeSnapshot, Persisted;
      ChangedMakes(agents, placement, change, env.now);
      SnapshotCaptures(agents, env.now);
      RestoreRecreates(TakeSnapshot(agents, env.now), placement, env.later);
      if Accepted(agents, placement, change) {
        var after := Changed(agents, placement, change, env.now);
        if Persisted(lease.store.record, lease.ownerId, lease.fence, after, env).1.Success? {
          PersistedIsDurable(lease.store.record, lease.ownerId, lease.fence, after, env);
        }
      }
    }

    method RegisterAgent(id: AgentId, leaseId: string, details: Details, version: string, capabilities: set<string>, env: Env)
      returns (r: Result<bool, L.LeaseError>)
      requires |env.others| == 8
      modifies this`agents, lease, lease.store
      ensures var change := Register(id, leaseId, details, version, capabilities);
              if Accepted(old(agents), placement, change)
              then && Outcome(change, env, old(agents), old(lease.store.record), old(lease.fence), r == Success(true))
                   && r != Success(false)
              else r == Success(false) && agents == old(agents) && lease.store.record == old(lease.store.record)
      ensures r == Success(false) <==> !Registrable(placement, id, details, version)
    {
      hide Makes, Captures, Recreates, Restore, TakeSnapshot, Persisted;
      PersistWillLeave(Register(id, leaseId, details, version, capabilities), env);
      if !(1 <= details.port <= 65535) || details.shardIndex < -1 || details in placement.refused
         || !Supports(placement, id, version)
      {
        return Success(false);
      }
      var before := TakeSnapshot(agents, env.now);
      agents := agents[id := Agent(leaseId, details, version, capabilities, PoolOf(placement, id),
                                   Report(0, [], map[]), [], false, env.now, env.now)];
      var persisted := Persist(before, env);
      return if persisted.Success? then Success(true) else Failure(persisted.error);
    }

    /** None is the lease error of an unknown or stale Agent. */
    method ReportHeartbeat(id: AgentId, leaseId: string, report: Report, env: Env)
      returns (r: Result<Option<seq<Command>>, L.LeaseError>)
      requires |env.others| == 8
      modifies this`agents, lease, lease.store
      ensures var change := Heartbeat(id, leaseId, report);
              if Accepted(old(agents), placement, change)
              then && Outcome(change, env, old(agents), old(lease.store.record), old(lease.fence), r.Success?)
                   && (r.Success? ==> r.value == Some(old(agents)[id].commands))
              else r == Success(None) && agents == old(agents) && lease.store.record == old(lease.store.record)
      ensures r == Success(None) <==> id !in old(agents) || old(agents)[id].leaseId != leaseId
    {
      hide Makes, Captures, Recreates, Restore, TakeSnapshot, Persisted;
      PersistWillLeave(Heartbeat(id, leaseId, report), env);
      var before := TakeSnapshot(agents, env.now);
      if id !in agents || agents[id].leaseId != leaseId {
        return Success(None);
      }
      var pending := agents[id].commands;
      agents := agents[id := agents[id].(lastSeen := env.now, report := report, commands := [])];
      var persisted := Persist(before, env);
      return if persisted.Success? then Success(Some(pending)) else Failure(persisted.error);
    }

    method QueueCommand(id: AgentId, command: Command, env: Env) returns (r: Result<bool, L.LeaseError>)
      requires |env.others| == 8
      modifies this`agents, lease, lease.store
      ensures if id in old(agents)
              then Outcome(Queue(id, command), env, old(agents), old(lease.store.record), old(lease.fence), r == Success(true))
                   && r != Success(false)
              else r == Success(false) && agents == old(agents) && lease.store.record == old(lease.store.record)
    {
      hide Makes, Captures, Recreates, Restore, TakeSnapshot, Persisted;
      PersistWillLeave(Queue(id, command), env);
      var before := TakeSnapshot(agents, env.now);
      if id !in agents {
        return Success(false);
      }
      var agent := agents[id];
      agent := agent.(commands := agent.commands + [command]);
      if command.kind == "drain" {
        agent := agent.(draining := true);
      }
      agents := agents[id := agent];
      var persisted := Persist(before, env);
      return if persisted.Success? then Success(true) else Failure(persisted.error);
    }

    method BroadcastCommand(command: Command, env: Env) returns (r: Result<nat, L.LeaseError>)
      requires |env.others| == 8
      modifies this`agents, lease, lease.store
      ensures Outcome(Broadcast(command), env, old(agents), old(lease.store.record), old(lease.fence), r.Success?)
      ensures r.Success? ==> r.value == |old(agents)|
    {
      hide Makes, Captures, Recreates, Restore, TakeSnapshot, Persisted;
      PersistWillLeave(Broadcast(command), env);
      var before := TakeSnapshot(agents, env.now);
      var todo := agents.Keys;
      while todo != {}
        invariant todo <= agents.Keys == old(agents).Keys
        invariant forall id | id in agents ::
                    agents[id] == if id in todo then old(agents)[id] else Enqueue(old(agents)[id], command)
        invariant lease.store.record == old(lease.store.record) && lease.fence == old(lease.fence)
      {
        var id :| id in todo;
        agents := agents[id := Enqueue(agents[id], command)];
        todo := todo - {id};
      }
      assert agents == Changed(old(agents), placement, Broadcast(command), env.now);
      var count := |agents|;
      assert count == |old(agents)| by { assert |agents| == |agents.Keys| && |old(agents)| == |old(agents).Keys|; }
      var persisted := Persist(before, env);
      return if persisted.Success? then Success(count) else Failure(persisted.error);
    }

    method RemoveAgent(id: AgentId, env: Env) returns (r: Result<bool, L.LeaseError>)
      requires |env.others| == 8
      modifies this`agents, lease, lease.store
      ensures if id in old(agents)
              then Outcome(Remove(id), env, old(agents), old(lease.store.record), old(lease.fence), r == Success(true))
                   && r != Success(false)
              else r == Success(false) && agents == old(agents) && lease.store.record == old(lease.store.record)
    {
      hide Makes, Captures, Recreates, Restore, TakeSnapshot, Persisted;
      PersistWillLeave(Remove(id), env);
      var before := TakeSnapshot(agents, env.now);
      if id !in agents {
        return Success(false);
      }
      agents := agents - {id};
      var persisted := Persist(before, env);
      return if persisted.Success? then Success(true) else Failure(persisted.error);
    }
  }
}
