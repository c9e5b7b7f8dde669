/**
  * The Manager's fleet table as values: Agent records with their command queues, the operations on
  * them, and the snapshot that is persisted with the leader lease.  Times are microseconds.
  */
module Fleet {
  import opened Wrappers

  /** The entry of the lease record's state that holds the fleet. */
  const REGISTRY: string := "registry"

  type AgentId = string

  datatype Command = Command(kind: string, payload: int)

  /** Registration data that is copied verbatim. */
  datatype Details = Details(host: string, port: int, os: string, capacityHint: int, advertiseHost: string,
                             shardIndex: int, contractVersion: string)

  /** What a heartbeat reports. */
  datatype Report = Report(health: int, servingTables: seq<string>, epochs: map<string, int>)

  /** The fields a record takes over from the placement pool of its identity. */
  datatype Pool = Pool(poolId: string, location: string, storageProfile: string, tenantId: string)

  /**
    * The operator's settings, as far as the registry uses them: the pool of each identity, the versions
    * an identity may not run, and the registrations the host allow-list or contract check refuses.
    */
  datatype Placement = Placement(pools: map<AgentId, Pool>, unsupported: set<(AgentId, string)>, refused: set<Details>)

  datatype Agent = Agent(leaseId: string, details: Details, version: string, capabilities: set<string>,
                         pool: Option<Pool>, report: Report, commands: seq<Command>, draining: bool,
                         registeredAt: int, lastSeen: int)

  type Agents = map<AgentId, Agent>

  /** One Agent of a snapshot; pool fields are looked up again on restore, times are kept as ages. */
  datatype Saved = Saved(leaseId: string, details: Details, version: string, capabilities: set<string>,
                         report: Report, commands: seq<Command>, draining: bool,
                         registeredAgeMs: nat, lastSeenAgeMs: nat)

  type Snapshot = map<AgentId, Saved>

  predicate Supports(placement: Placement, id: AgentId, version: string) {
    (id, version) !in placement.unsupported
  }

  function PoolOf(placement: Placement, id: AgentId): (p: Option<Pool>) {
    if id in placement.pools then Some(placement.pools[id]) else None
  }

  // ---------------------------------------------------------------------------------------------
  // Snapshot and restore
  // ---------------------------------------------------------------------------------------------

  /** `max(0, int(seconds * 1000))`. */
  function AgeMs(now: int, t: int): (age: nat) {
    if now <= t then 0 else (now - t) / 1000
  }

  function Save(a: Agent, now: int): (s: Saved) {
    Saved(a.leaseId, a.details, a.version, a.capabilities, a.report, a.commands, a.draining,
          AgeMs(now, a.registeredAt), AgeMs(now, a.lastSeen))
  }

  function Load(s: Saved, pool: Option<Pool>, now: int): (a: Agent) {
    Agent(s.leaseId, s.details, s.version, s.capabilities, pool, s.report, s.commands, s.draining,
          now - 1000 * s.registeredAgeMs, now - 1000 * s.lastSeenAgeMs)
  }

  function TakeSnapshot(agents: Agents, now: int): (s: Snapshot) {
    map id | id in agents :: Save(agents[id], now)
  }

  /** Agents whose version the placement no longer supports are dropped. */
  function Restore(snapshot: Snapshot, placement: Placement, now: int): (agents: Agents) {
    map id | id in snapshot && Supports(placement, id, snapshot[id].version) ::
      Load(snapshot[id], PoolOf(placement, id), now)
  }

  /** Every record carries the pool of its identity and a supported version. */
  ghost predicate WellPlaced(agents: Agents, placement: Placement) {
    forall id | id in agents ::
      Supports(placement, id, agents[id].version) && agents[id].pool == PoolOf(placement, id)
  }

  ghost predicate SupportedSnapshot(snapshot: Snapshot, placement: Placement) {
    forall id | id in snapshot :: Supports(placement, id, snapshot[id].version)
  }

  /** The same record apart from its two times. */
  ghost predicate SameRecord(a: Agent, b: Agent) {
    a.(registeredAt := 0, lastSeen := 0) == b.(registeredAt := 0, lastSeen := 0)
  }

  ghost predicate SameFleet(a: Agents, b: Agents) {
    a.Keys == b.Keys && forall id | id in a :: SameRecord(a[id], b[id])
  }

  ghost predicate DescribesAgent(s: Saved, a: Agent) {
    Save(a, 0).(registeredAgeMs := 0, lastSeenAgeMs := 0) == s.(registeredAgeMs := 0, lastSeenAgeMs := 0)
  }

  /** `snapshot` describes `agents`, apart from ages. */
  ghost predicate Describes(snapshot: Snapshot, agents: Agents) {
    snapshot.Keys == agents.Keys && forall id | id in snapshot :: DescribesAgent(snapshot[id], agents[id])
  }

  lemma SnapshotDescribes(agents: Agents, now: int)
    ensures Describes(TakeSnapshot(agents, now), agents)
  {
  }

  lemma RestoredIsDescribed(snapshot: Snapshot, placement: Placement, now: int)
    requires SupportedSnapshot(snapshot, placement)
    ensures Describes(snapshot, Restore(snapshot, placement, now))
    ensures WellPlaced(Restore(snapshot, placement, now), placement)
  {
  }

  /** `age` is the time from `t` to `now` in whole milliseconds, 0 for a time in the future. */
  ghost predicate IsAge(age: nat, t: int, now: int) {
    if now <= t then age == 0 else 1000 * age <= now - t < 1000 * age + 1000
  }

  /** `snapshot` holds every field of every Agent but its pool, and its times as ages at `now`. */
  ghost predicate Captures(snapshot: Snapshot, agents: Agents, now: int) {
    && snapshot.Keys == agents.Keys
    && forall id | id in agents ::
         var s, a := snapshot[id], agents[id];
         && s.leaseId == a.leaseId && s.details == a.details && s.version == a.version && s.capabilities == a.capabilities
         && s.report == a.report && s.commands == a.commands && s.draining == a.draining
         && IsAge(s.registeredAgeMs, a.registeredAt, now) && IsAge(s.lastSeenAgeMs, a.lastSeen, now)
  }

  lemma SnapshotCaptures(agents: Agents, now: int)
    ensures Captures(TakeSnapshot(agents, now), agents, now)
  {
  }

  /** `agents` are the supported Agents of the snapshot, with the pools of their identities and times of the same age at `now`. */
  ghost predicate Recreates(agents: Agents, snapshot: Snapshot, placement: Placement, now: int) {
    && (forall id :: id in agents <==> id in snapshot && (id, snapshot[id].version) !in placement.unsupported)
    && forall id | id in agents ::
         var a, s := agents[id], snapshot[id];
         && a.leaseId == s.leaseId && a.details == s.details && a.version == s.version && a.capabilities == s.capabilities
         && a.report == s.report && a.commands == s.commands && a.draining == s.draining
         && a.pool == (if id in placement.pools then Some(placement.pools[id]) else None)
         && now - a.registeredAt == 1000 * s.registeredAgeMs && now - a.lastSeen == 1000 * s.lastSeenAgeMs
  }

  lemma RestoreRecreates(snapshot: Snapshot, placement: Placement, now: int)
    ensures Recreates(Restore(snapshot, placement, now), snapshot, placement, now)
  {
  }

  /** Rounding a past time to whole milliseconds of age moves it forward by less than one millisecond. */
  lemma AgeRounding(t: int, now: int, later: int)
    requires t <= now <= later
    ensures 0 <= (later - 1000 * AgeMs(now, t)) - (t + (later - now)) < 1000
  {
  }

  /**
    * A failed persist puts back the fleet as it was: the same Agents with the same records and queues,
    * and ages that stand still between snapshot and restore up to rounding to a millisecond.
    */
  lemma RollbackRestoresFleet(agents: Agents, placement: Placement, now: int, later: int)
    requires WellPlaced(agents, placement) && now <= later
    requires forall id | id in agents :: agents[id].registeredAt <= now && agents[id].lastSeen <= now
    ensures var back := Restore(TakeSnapshot(agents, now), placement, later);
            && SameFleet(back, agents)
            && forall id | id in agents ::
                 && 0 <= back[id].registeredAt - (agents[id].registeredAt + (later - now)) < 1000
                 && 0 <= back[id].lastSeen - (agents[id].lastSeen + (later - now)) < 1000
  {
    var back := Restore(TakeSnapshot(agents, now), placement, later);
    assert back.Keys == agents.Keys;
    forall id | id in agents
      ensures && 0 <= back[id].registeredAt - (agents[id].registeredAt + (later - now)) < 1000
              && 0 <= back[id].lastSeen - (agents[id].lastSeen + (later - now)) < 1000
    {
      AgeRounding(agents[id].registeredAt, now, later);
      AgeRounding(agents[id].lastSeen, now, later);
    }
  }

  // ---------------------------------------------------------------------------------------------
  // Changes
  // ---------------------------------------------------------------------------------------------

  datatype Change =
    | Register(id: AgentId, leaseId: string, details: Details, version: string, capabilities: set<string>)
    | Heartbeat(id: AgentId, leaseId: string, report: Report)
    | Queue(id: AgentId, command: Command)
    | Broadcast(command: Command)
    | Remove(id: AgentId)

  function Enqueue(a: Agent, command: Command): (r: Agent) {
    a.(commands := a.commands + [command], draining := a.draining || command.kind == "drain")
  }

  /** Whether the operation reaches `_persist_locked` at all. */
  predicate Accepted(agents: Agents, placement: Placement, change: Change) {
    match change
    case Register(id, _, details, version, _) =>
      && 1 <= details.port <= 65535
      && details.shardIndex >= -1
      && details !in placement.refused
      && Supports(placement, id, version)
    case Heartbeat(id, leaseId, _) => id in agents && agents[id].leaseId == leaseId
    case Queue(id, _) => id in agents
    case Broadcast(_) => true
    case Remove(id) => id in agents
  }

  /** The fleet an accepted operation tries to persist. */
  function Changed(agents: Agents, placement: Placement, change: Change, now: int): (r: Agents)
    requires Accepted(agents, placement, change)
  {
    match change
    case Register(id, leaseId, details, version, capabilities) =>
      agents[id := Agent(leaseId, details, version, capabilities, PoolOf(placement, id),
                         Report(0, [], map[]), [], false, now, now)]
    case Heartbeat(id, _, report) => agents[id := agents[id].(lastSeen := now, report := report, commands := [])]
    case Queue(id, command) => agents[id := Enqueue(agents[id], command)]
    case Broadcast(command) => map id | id in agents :: Enqueue(agents[id], command)
    case Remove(id) => agents - {id}
  }

  lemma ChangedIsWellPlaced(agents: Agents, placement: Placement, change: Change, now: int)
    requires WellPlaced(agents, placement) && Accepted(agents, placement, change)
    ensures WellPlaced(Changed(agents, placement, change, now), placement)
  {
  }

  /** A registration is taken with a valid port and shard from a host, contract and version that are allowed. */
  ghost predicate Registrable(placement: Placement, id: AgentId, details: Details, version: string) {
    && 1 <= details.port <= 65535 && -1 <= details.shardIndex
    && details !in placement.refused && (id, version) !in placement.unsupported
  }

  /** The operation is taken at all: known Agents only, and for a heartbeat the lease it was registered with. */
  ghost predicate Taken(agents: Agents, placement: Placement, change: Change) {
    match change
    case Register(id, _, details, version, _) => Registrable(placement, id, details, version)
    case Heartbeat(id, leaseId, _) => id in agents && agents[id].leaseId == leaseId
    case Queue(id, _) => id in agents
    case Broadcast(_) => true
    case Remove(id) => id in agents
  }

  /** `b` is `a` with one command more, and draining if it was or the command says so. */
  ghost predicate Received(a: Agent, b: Agent, command: Command) {
    && |b.commands| == |a.commands| + 1 && a.commands <= b.commands && b.commands[|a.commands|] == command
    && (b.draining <==> a.draining || command.kind == "drain")
    && b.(commands := [], draining := false) == a.(commands := [], draining := false)
  }

  /** What the operation makes of the fleet at `now`; every other Agent stays as it is. */
  ghost predicate Makes(change: Change, before: Agents, after: Agents, placement: Placement, now: int) {
    match change
    case Register(id, leaseId, details, version, capabilities) =>
      && after.Keys == before.Keys + {id} && (forall other | other in before && other != id :: after[other] == before[other])
      && var a := after[id];
      && a.leaseId == leaseId && a.details == details && a.version == version && a.capabilities == capabilities
      && a.pool == (if id in placement.pools then Some(placement.pools[id]) else None)
      && a.report == Report(0, [], map[]) && a.commands == [] && !a.draining && a.registeredAt == a.lastSeen == now
    case Heartbeat(id, _, report) =>
      && after.Keys == before.Keys && (forall other | other in before && other != id :: after[other] == before[other])
      && id in before
      && after[id].lastSeen == now && after[id].report == report && after[id].commands == []
      && after[id].(lastSeen := 0, report := report, commands := []) == before[id].(lastSeen := 0, report := report, commands := [])
    case Queue(id, command) =>
      && after.Keys == before.Keys && (forall other | other in before && other != id :: after[other] == before[other])
      && id in before && Received(before[id], after[id], command)
    case Broadcast(command) =>
      after.Keys == before.Keys && forall id | id in before :: Received(before[id], after[id], command)
    case Remove(id) => after == before - {id}
  }

  /** The changes taken are those accepted, and what they try to persist is what they make. */
  lemma ChangedMakes(agents: Agents, placement: Placement, change: Change, now: int)
    ensures Accepted(agents, placement, change) <==> Taken(agents, placement, change)
    ensures Accepted(agents, placement, change) ==> Makes(change, agents, Changed(agents, placement, change, now), placement, now)
  {
  }
}
