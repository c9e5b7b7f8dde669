/**
  * Registries attached to the leader lease: every Manager has a fleet in memory, each change of it is
  * written through `mutate_state` under the registry lock, and a new primary restores the last write.
  * A run interleaves the lease protocol with the registries of any number of Managers.
  */
module RegistryRuns {
  import opened Wrappers
  import opened Sequences
  import L = Lease
  import opened Fleet

  /** A change that holds the registry lock until its write succeeds or fails; None is `attach_durable_state`. */
  datatype Task = Task(change: Option<Change>, at: int, before: Snapshot, after: Agents, value: Snapshot, inFlight: Option<nat>)

  /** `synced` is the term in which an attached registry last read the durable fleet. */
  datatype Registry = Registry(agents: Agents, attached: bool, synced: Option<nat>, task: Option<Task>)

  /** Commands acknowledged for an Agent and those handed out, by any Manager, since it last registered durably. */
  datatype Ledger = Ledger(acked: seq<Command>, delivered: seq<Command>)

  datatype System = System(
    lease: L.State<Snapshot>,
    registries: map<L.OwnerId, Registry>,
    ledger: map<AgentId, Ledger>)

  datatype Step =
    | LeaseStep(step: L.Step<Snapshot>)                 // anything but a write of the registry
    | AttachRead(manager: L.OwnerId, now: int)          // read_state and restore
    | AttachFail(manager: L.OwnerId)                    // read_state raised, but the lease is attached already
    | Begin(manager: L.OwnerId, change: Change, now: int)
    | TryWrite(manager: L.OwnerId, op: nat, now: int)   // one attempt of mutate_state: read and check
    | Write(op: nat)                                    // its compare-and-swap
    | Fail(manager: L.OwnerId, now: int)                // mutate_state raised: roll back, attached as before
    | Detach(manager: L.OwnerId)

  function RegistryOf(s: System, manager: L.OwnerId): (r: Registry) {
    if manager in s.registries then s.registries[manager] else Registry(map[], false, None, None)
  }

  function Durable(lease: L.State<Snapshot>): (d: Option<Snapshot>) {
    if lease.store.Some? && REGISTRY in lease.store.value.state then Some(lease.store.value.state[REGISTRY]) else None
  }

  predicate WritesRegistry(operation: L.Operation<Snapshot>) {
    operation.Mutate? && operation.name == REGISTRY
  }

  predicate RegistryWrite(lease: L.State<Snapshot>, op: nat) {
    op in lease.pending && lease.pending[op].InFlight? && WritesRegistry(lease.pending[op].operation)
  }

  /** Lease steps other than those of a registry write. */
  predicate Unrelated(lease: L.State<Snapshot>, step: L.Step<Snapshot>) {
    match step
    case Read(_, _, operation, _) => !WritesRegistry(operation)
    case Swap(op) => !RegistryWrite(lease, op)
    case Apply(_) => true
    case Lose(_) => true
  }

  function LedgerOf(ledger: map<AgentId, Ledger>, id: AgentId): (l: Ledger) {
    if id in ledger then ledger[id] else Ledger([], [])
  }

  /** What a successful write acknowledges or hands out. */
  function Posted(ledger: map<AgentId, Ledger>, change: Change, before: Agents): (r: map<AgentId, Ledger>) {
    match change
    case Register(id, _, _, _, _) => ledger[id := Ledger([], [])]
    case Heartbeat(id, _, _) =>
      var l, queue := LedgerOf(ledger, id), if id in before then before[id].commands else [];
      ledger[id := l.(delivered := l.delivered + queue)]
    case Queue(id, command) => ledger[id := LedgerOf(ledger, id).(acked := LedgerOf(ledger, id).acked + [command])]
    case Broadcast(command) =>
      map id | id in ledger :: if id in before then ledger[id].(acked := ledger[id].acked + [command]) else ledger[id]
    case Remove(id) => ledger - {id}
  }

  /** What a change acknowledges or hands out although a detached registry keeps it in memory alone. */
  function PostedInMemory(ledger: map<AgentId, Ledger>, change: Change, before: Agents): (r: map<AgentId, Ledger>) {
    match change
    case Heartbeat(id, _, _) => if id in before && before[id].commands != [] then Posted(ledger, change, before) else ledger
    case Queue(_, _) => Posted(ledger, change, before)
    case Broadcast(command) =>
      map id | id in ledger.Keys + before.Keys ::
        if id in before then LedgerOf(ledger, id).(acked := LedgerOf(ledger, id).acked + [command]) else ledger[id]
    case Register(_, _, _, _, _) => ledger
    case Remove(_) => ledger
  }

  /** The change acknowledges or hands out some command. */
  predicate Promises(agents: Agents, change: Change) {
    match change
    case Heartbeat(id, _, _) => id in agents && agents[id].commands != []
    case Queue(_, _) => true
    case Broadcast(_) => agents != map[]
    case Register(_, _, _, _, _) => false
    case Remove(_) => false
  }

  /** The first durable fleet starts the account, with the commands already queued in memory. */
  function FirstPosted(after: Agents): (r: map<AgentId, Ledger>) {
    map id | id in after :: Ledger(after[id].commands, [])
  }

  function Next(s: System, placement: Placement, step: Step): (r: System) {
    match step
    case LeaseStep(l) => if Unrelated(s.lease, l) then s.(lease := L.Next(s.lease, l)) else s
    case AttachRead(m, now) =>
      var reg := RegistryOf(s, m);
      if reg.task.Some? || m == "" then s
      else
        var durable := Durable(s.lease);
        var agents := if durable.Some? then Restore(durable.value, placement, now) else reg.agents;
        var value := TakeSnapshot(agents, now);
        s.(registries := s.registries[m := Registry(agents, true, Some(L.LocalOf(s.lease, m).fence),
                                                    Some(Task(None, now, value, agents, value, None)))])
    case AttachFail(m) =>
      var reg := RegistryOf(s, m);
      if reg.task.Some? || m == "" then s else s.(registries := s.registries[m := reg.(attached := true)])
    case Begin(m, change, now) =>
      var reg := RegistryOf(s, m);
      if reg.task.Some? || m == "" || !Accepted(reg.agents, placement, change) then s
      else
        var after := Changed(reg.agents, placement, change, now);
        if !reg.attached then
          s.(registries := s.registries[m := reg.(agents := after)],
          ledger := if Durable(s.lease).Some? then PostedInMemory(s.ledger, change, reg.agents) else s.ledger)
        else
          var task := Task(Some(change), now, TakeSnapshot(reg.agents, now), after, TakeSnapshot(after, now), None);
          s.(registries := s.registries[m := reg.(task := Some(task))])
    case TryWrite(m, op, now) =>
      var reg := RegistryOf(s, m);
      if reg.task.None? || reg.task.value.inFlight.Some? || op in s.lease.pending then s
      else
        var lease := L.Next(s.lease, L.Read(op, m, L.Mutate(REGISTRY, reg.task.value.value), now));
        var inFlight := if op in lease.pending then Some(op) else None;
        s.(lease := lease, registries := s.registries[m := reg.(task := Some(reg.task.value.(inFlight := inFlight)))])
    case Write(op) =>
      if !RegistryWrite(s.lease, op) then s
      else
        var m := s.lease.pending[op].manager;
        var reg := RegistryOf(s, m);
        var lease := L.Next(s.lease, L.Swap(op));
        if reg.task.None? then s.(lease := lease)
        else if !L.Commits(s.lease, op) then
          s.(lease := lease, registries := s.registries[m := reg.(task := Some(reg.task.value.(inFlight := None)))])
        else
          var task := reg.task.value;
          var ledger :=
            if Durable(s.lease).None? then FirstPosted(task.after)
            else if task.change.Some? then Posted(s.ledger, task.change.value, reg.agents)
            else s.ledger;
          System(lease, s.registries[m := reg.(agents := task.after, task := None)], ledger)
    case Fail(m, now) =>
      var reg := RegistryOf(s, m);
      if reg.task.None? || reg.task.value.inFlight.Some? then s
      else if reg.task.value.change.None? then s.(registries := s.registries[m := reg.(task := None)])
      else
        s.(registries := s.registries[m := reg.(agents := Restore(reg.task.value.before, placement, now), task := None)])
    case Detach(m) =>
      var reg := RegistryOf(s, m);
      if reg.task.Some? || m == "" then s else s.(registries := s.registries[m := reg.(attached := false, synced := None)])
  }

  function After(placement: Placement, steps: seq<Step>): (s: System) {
    if steps == [] then System(L.Init(), map[], map[])
    else Next(After(placement, steps[..|steps| - 1]), placement, Last(steps))
  }

  /** The writer still is in the term in which it read the durable fleet. */
  predicate InSyncedTerm(s: System, step: Step) {
    step.TryWrite? ==>
      RegistryOf(s, step.manager).synced == Some(L.LocalOf(s.lease, step.manager).fence)
  }

  /** A detached registry acknowledges or hands out a command although there is a durable fleet. */
  predicate Unbacked(s: System, placement: Placement, step: Step) {
    && step.Begin? && step.manager != ""
    && var reg := RegistryOf(s, step.manager);
    && reg.task.None? && !reg.attached && Durable(s.lease).Some?
    && Accepted(reg.agents, placement, step.change) && Promises(reg.agents, step.change)
  }

  /**
    * Every registry write of the run happens in the term of the last `attach_durable_state`, and no registry
    * acknowledges or hands out commands while it is detached.
    */
  predicate Disciplined(placement: Placement, steps: seq<Step>) {
    steps == [] ||
    (&& Disciplined(placement, steps[..|steps| - 1])
     && InSyncedTerm(After(placement, steps[..|steps| - 1]), Last(steps))
     && !Unbacked(After(placement, steps[..|steps| - 1]), placement, Last(steps)))
  }

  // ---------------------------------------------------------------------------------------------
  // The lease part of a run is a run of the lease
  // ---------------------------------------------------------------------------------------------

  /** The lease step a system step takes, if any. */
  function LeasePart(s: System, step: Step): (r: Option<L.Step<Snapshot>>) {
    match step
    case LeaseStep(l) => if Unrelated(s.lease, l) then Some(l) else None
    case TryWrite(m, op, now) =>
      var reg := RegistryOf(s, m);
      if reg.task.None? || reg.task.value.inFlight.Some? || op in s.lease.pending then None
      else Some(L.Read(op, m, L.Mutate(REGISTRY, reg.task.value.value), now))
    case Write(op) => if RegistryWrite(s.lease, op) then Some(L.Swap(op)) else None
    case AttachRead(_, _) => None
    case AttachFail(_) => None
    case Begin(_, _, _) => None
    case Fail(_, _) => None
    case Detach(_) => None
  }

  function LeaseSteps(placement: Placement, steps: seq<Step>): (r: seq<L.Step<Snapshot>>) {
    if steps == [] then []
    else
      var before := steps[..|steps| - 1];
      var part := LeasePart(After(placement, before), Last(steps));
      LeaseSteps(placement, before) + (if part.Some? then [part.value] else [])
  }

  lemma {:induction false} LeasePartIsARun(placement: Placement, steps: seq<Step>)
    ensures After(placement, steps).lease == L.After(LeaseSteps(placement, steps))
  {
    if steps != [] {
      var before := steps[..|steps| - 1];
      LeasePartIsARun(placement, before);
      var s, part := After(placement, before), LeasePart(After(placement, before), Last(steps));
      assert Next(s, placement, Last(steps)).lease == if part.Some? then L.Next(s.lease, part.value) else s.lease;
      if part.Some? {
        var earlier := LeaseSteps(placement, before);
        assert (earlier + [part.value])[..|earlier|] == earlier;
      } else {
        assert LeaseSteps(placement, before) + [] == LeaseSteps(placement, before);
      }
    }
  }

  // ---------------------------------------------------------------------------------------------
  // What every step of a disciplined run keeps
  // ---------------------------------------------------------------------------------------------

  ghost predicate TaskOk(t: Task, agents: Agents, placement: Placement) {
    && Describes(t.value, t.after)
    && SupportedSnapshot(t.before, placement)
    && Describes(t.before, agents)
    && (if t.change.None? then t.after == agents
        else Accepted(agents, placement, t.change.value) && t.after == Changed(agents, placement, t.change.value, t.at))
  }

  ghost predicate RegistryOk(reg: Registry, placement: Placement) {
    && WellPlaced(reg.agents, placement)
    && (reg.synced.Some? ==> reg.attached)
    && (reg.task.Some? ==> reg.attached && TaskOk(reg.task.value, reg.agents, placement))
  }

  /** A registry write in flight belongs to the change that holds the lock, in the term it was synced in. */
  ghost predicate WriteOk(s: System, op: nat)
    requires RegistryWrite(s.lease, op)
  {
    var p := s.lease.pending[op];
    && p.manager in s.registries
    && var reg := s.registries[p.manager];
    && reg.task.Some?
    && reg.task.value.inFlight == Some(op)
    && reg.task.value.value == p.operation.value
    && reg.synced == Some(p.proposal.fence)
  }

  /** The registry last synced in the term that is now durable. */
  ghost predicate InTerm(lease: L.State<Snapshot>, reg: Registry) {
    L.Fence(lease) > 0 && reg.synced == Some(L.Fence(lease))
  }

  /** A registry synced in the durable term has the durable fleet in memory. */
  ghost predicate SyncOk(lease: L.State<Snapshot>, reg: Registry) {
    InTerm(lease, reg) && Durable(lease).Some? ==> Describes(Durable(lease).value, reg.agents)
  }

  /** Acknowledged commands are those handed out, in order, followed by those still in the durable queue. */
  ghost predicate LedgerOk(durable: Option<Snapshot>, ledger: map<AgentId, Ledger>) {
    match durable
    case None => ledger == map[]
    case Some(d) =>
      && ledger.Keys == d.Keys
      && forall id | id in ledger :: ledger[id].acked == ledger[id].delivered + d[id].commands
  }

  /** Every registry synced in a term that it held. */
  ghost predicate TermsHeld(s: System, h: seq<L.Record<Snapshot>>) {
    forall m | m in s.registries && s.registries[m].synced.Some? && s.registries[m].synced.value > 0 ::
      L.Held(h, m, s.registries[m].synced.value)
  }

  ghost predicate Inv(s: System, placement: Placement, h: seq<L.Record<Snapshot>>) {
    && (forall m | m in s.registries :: m != "" && RegistryOk(s.registries[m], placement))
    && (forall m | m in s.registries :: SyncOk(s.lease, s.registries[m]))
    && TermsHeld(s, h)
    && (forall op: nat | RegistryWrite(s.lease, op) :: WriteOk(s, op))
    && (Durable(s.lease).Some? ==> SupportedSnapshot(Durable(s.lease).value, placement))
    && LedgerOk(Durable(s.lease), s.ledger)
  }

  // Facts about lease steps ----------------------------------------------------------------------

  /** No lease step but a registry write touches the durable fleet, or starts a registry write. */
  lemma UnrelatedKeepsDurable(lease: L.State<Snapshot>, h: seq<L.Record<Snapshot>>, m: map<string, Snapshot>, step: L.Step<Snapshot>)
    requires L.Inv(lease, h, m) && Unrelated(lease, step)
    ensures var lease' := L.Next(lease, step);
            && Durable(lease') == Durable(lease)
            && L.Fence(lease) <= L.Fence(lease')
            && forall op: nat | RegistryWrite(lease', op) :: RegistryWrite(lease, op) && lease'.pending[op] == lease.pending[op]
  {
    if step.Swap? && L.Commits(lease, step.op) {
      assert L.PendingOk(lease.pending[step.op], h);
    }
  }

  /** An attempt to write only changes what is in flight and what the writer believes. */
  lemma TryKeepsDurable(lease: L.State<Snapshot>, op: nat, manager: L.OwnerId, value: Snapshot, now: int)
    requires op !in lease.pending
    ensures var lease' := L.Next(lease, L.Read(op, manager, L.Mutate(REGISTRY, value), now));
            && lease'.store == lease.store
            && (forall o | o in lease'.pending && o != op :: o in lease.pending && lease'.pending[o] == lease.pending[o])
            && (op in lease'.pending ==>
                  && RegistryWrite(lease', op)
                  && lease'.pending[op].manager == manager
                  && lease'.pending[op].operation.value == value
                  && lease'.pending[op].proposal.fence == L.LocalOf(lease, manager).fence)
  {
  }

  /** A committed write replaces the durable fleet within the writer's own term. */
  lemma WriteReplacesDurable(lease: L.State<Snapshot>, h: seq<L.Record<Snapshot>>, m: map<string, Snapshot>, op: nat)
    requires L.Inv(lease, h, m) && RegistryWrite(lease, op)
    ensures var lease', p := L.Next(lease, L.Swap(op)), lease.pending[op];
            && op !in lease'.pending
            && (forall o | o in lease'.pending :: o in lease.pending && lease'.pending[o] == lease.pending[o])
            && L.Fence(lease') == L.Fence(lease)
            && Durable(lease') == (if L.Commits(lease, op) then Some(p.operation.value) else Durable(lease))
            && (L.Commits(lease, op) ==>
                  && L.Fence(lease) == p.proposal.fence > 0
                  && L.Held(h, p.manager, p.proposal.fence)
                  && p.manager != "")
  {
    assert L.PendingOk(lease.pending[op], h);
    if L.Commits(lease, op) {
      assert h[|h| - 1] == Last(h);
    }
  }

  lemma HeldByOne(h: seq<L.Record<Snapshot>>, a: L.OwnerId, b: L.OwnerId, fence: nat)
    requires L.Ordered(h) && a != "" && b != ""
    requires L.Held(h, a, fence) && L.Held(h, b, fence)
    ensures a == b
  {
    var i :| 0 <= i < |h| && h[i].owner == a && h[i].fence == fence;
    var j :| 0 <= j < |h| && h[j].owner == b && h[j].fence == fence;
    if i < j {
      assert L.Follows(h[i], h[j]);
    } else if j < i {
      assert L.Follows(h[j], h[i]);
    }
  }

  lemma HeldIsPast(h: seq<L.Record<Snapshot>>, a: L.OwnerId, fence: nat)
    requires L.Ordered(h) && L.Held(h, a, fence)
    ensures fence <= L.LastFence(h)
  {
    var i :| 0 <= i < |h| && h[i].owner == a && h[i].fence == fence;
    L.LastFenceIsHighest(h, i);
  }

  // Facts about fleets ---------------------------------------------------------------------------

  /** The ledger follows one accepted change of the fleet it accounts for. */
  lemma PostedKeepsLedger(durable: Snapshot, ledger: map<AgentId, Ledger>, agents: Agents, placement: Placement,
                          change: Change, at: int, value: Snapshot)
    requires Accepted(agents, placement, change)
    requires Describes(durable, agents) && Describes(value, Changed(agents, placement, change, at))
    requires LedgerOk(Some(durable), ledger)
    ensures LedgerOk(Some(value), Posted(ledger, change, agents))
  {
    var after, ledger' := Changed(agents, placement, change, at), Posted(ledger, change, agents);
    assert ledger'.Keys == value.Keys;
    forall id | id in ledger'
      ensures ledger'[id].acked == ledger'[id].delivered + value[id].commands
    {
      assert DescribesAgent(value[id], after[id]);
      assert id in agents ==> DescribesAgent(durable[id], agents[id]);
      PostedAgent(ledger, agents, placement, change, at, id);
    }
  }

  lemma PostedAgent(ledger: map<AgentId, Ledger>, agents: Agents, placement: Placement, change: Change, at: int, id: AgentId)
    requires Accepted(agents, placement, change) && ledger.Keys == agents.Keys
    requires id in agents ==> ledger[id].acked == ledger[id].delivered + agents[id].commands
    requires id in Changed(agents, placement, change, at)
    ensures id in Posted(ledger, change, agents)
    ensures var l := Posted(ledger, change, agents)[id];
            l.acked == l.delivered + Changed(agents, placement, change, at)[id].commands
  {
    if id in agents {
      var l, queue := ledger[id], agents[id].commands;
      assert (l.delivered + queue) + [] == l.delivered + queue;
      if change.Queue? || change.Broadcast? {
        AppendAssociative(l.delivered, queue, [change.command]);
      }
    }
  }

  lemma DescribesTransfers(a: Snapshot, b: Snapshot, agents: Agents, others: Agents)
    requires Describes(a, agents) && Describes(b, agents) && Describes(a, others)
    ensures Describes(b, others)
  {
    forall id | id in b ensures DescribesAgent(b[id], others[id]) {
      assert DescribesAgent(a[id], agents[id]) && DescribesAgent(a[id], others[id]) && DescribesAgent(b[id], agents[id]);
    }
  }

  // The steps ------------------------------------------------------------------------------------

  lemma HeldGrows(h: seq<L.Record<Snapshot>>, h': seq<L.Record<Snapshot>>, m: L.OwnerId, fence: nat)
    requires h <= h' && L.Held(h, m, fence)
    ensures L.Held(h', m, fence)
  {
    var i :| 0 <= i < |h| && h[i].owner == m && h[i].fence == fence;
    assert h'[i] == h[i];
  }

  lemma TermsStayHeld(s: System, h: seq<L.Record<Snapshot>>, h': seq<L.Record<Snapshot>>)
    requires h <= h' && TermsHeld(s, h)
    ensures TermsHeld(s, h')
  {
    forall m | m in s.registries && s.registries[m].synced.Some? && s.registries[m].synced.value > 0
      ensures L.Held(h', m, s.registries[m].synced.value)
    {
      HeldGrows(h, h', m, s.registries[m].synced.value);
    }
  }

  /** A term newer than every record so far was synced in by nobody. */
  lemma LeaseStepKeepsSync(lease: L.State<Snapshot>, h: seq<L.Record<Snapshot>>, m: map<string, Snapshot>,
                           step: L.Step<Snapshot>, manager: L.OwnerId, reg: Registry)
    requires L.Inv(lease, h, m) && Unrelated(lease, step)
    requires SyncOk(lease, reg)
    requires reg.synced.Some? && reg.synced.value > 0 ==> L.Held(h, manager, reg.synced.value)
    ensures SyncOk(L.Next(lease, step), reg)
  {
    UnrelatedKeepsDurable(lease, h, m, step);
    if InTerm(L.Next(lease, step), reg) {
      HeldIsPast(h, manager, reg.synced.value);
    }
  }

  lemma LeaseStepKeepsInv(s: System, placement: Placement, h: seq<L.Record<Snapshot>>, h': seq<L.Record<Snapshot>>,
                          m: map<string, Snapshot>, step: L.Step<Snapshot>)
    requires L.Inv(s.lease, h, m) && Inv(s, placement, h) && h <= h'
    requires Unrelated(s.lease, step)
    ensures Inv(Next(s, placement, LeaseStep(step)), placement, h')
  {
    var s' := Next(s, placement, LeaseStep(step));
    UnrelatedKeepsDurable(s.lease, h, m, step);
    TermsStayHeld(s, h, h');
    forall manager | manager in s.registries ensures SyncOk(s'.lease, s.registries[manager]) {
      LeaseStepKeepsSync(s.lease, h, m, step, manager, s.registries[manager]);
    }
    forall op: nat | RegistryWrite(s'.lease, op) ensures WriteOk(s', op) {
      assert WriteOk(s, op);
    }
  }

  /** Replacing a registry that has no write in flight. */
  lemma RegistryReplaced(s: System, placement: Placement, h: seq<L.Record<Snapshot>>, m: L.OwnerId, reg: Registry)
    requires Inv(s, placement, h) && m != ""
    requires RegistryOk(reg, placement) && SyncOk(s.lease, reg)
    requires reg.synced.Some? && reg.synced.value > 0 ==> L.Held(h, m, reg.synced.value)
    requires forall op: nat | RegistryWrite(s.lease, op) :: s.lease.pending[op].manager != m
    ensures Inv(s.(registries := s.registries[m := reg]), placement, h)
  {
    var s' := s.(registries := s.registries[m := reg]);
    forall op: nat | RegistryWrite(s'.lease, op) ensures WriteOk(s', op) {
      assert WriteOk(s, op);
    }
  }

  lemma NothingInFlight(s: System, placement: Placement, h: seq<L.Record<Snapshot>>, m: L.OwnerId)
    requires Inv(s, placement, h)
    requires RegistryOf(s, m).task.None? || RegistryOf(s, m).task.value.inFlight.None?
    ensures forall op: nat | RegistryWrite(s.lease, op) :: s.lease.pending[op].manager != m
  {
    forall op: nat | RegistryWrite(s.lease, op) ensures s.lease.pending[op].manager != m {
      assert WriteOk(s, op);
    }
  }

  lemma AttachKeepsInv(s: System, placement: Placement, h: seq<L.Record<Snapshot>>, m: map<string, Snapshot>,
                       manager: L.OwnerId, now: int)
    requires L.Inv(s.lease, h, m) && Inv(s, placement, h)
    ensures Inv(Next(s, placement, AttachRead(manager, now)), placement, h)
  {
    var reg := RegistryOf(s, manager);
    if reg.task.None? && manager != "" {
      NothingInFlight(s, placement, h, manager);
      var durable, fence := Durable(s.lease), L.LocalOf(s.lease, manager).fence;
      var agents := if durable.Some? then Restore(durable.value, placement, now) else reg.agents;
      var value := TakeSnapshot(agents, now);
      if durable.Some? {
        RestoredIsDescribed(durable.value, placement, now);
      }
      SnapshotDescribes(agents, now);
      assert manager in s.lease.locals ==> L.LocalOk(s.lease.locals[manager], manager, h);
      RegistryReplaced(s, placement, h, manager,
                       Registry(agents, true, Some(fence), Some(Task(None, now, value, agents, value, None))));
    }
  }

  lemma AttachFailKeepsInv(s: System, placement: Placement, h: seq<L.Record<Snapshot>>, manager: L.OwnerId)
    requires Inv(s, placement, h)
    ensures Inv(Next(s, placement, AttachFail(manager)), placement, h)
  {
    var reg := RegistryOf(s, manager);
    if reg.task.None? && manager != "" {
      NothingInFlight(s, placement, h, manager);
      RegistryReplaced(s, placement, h, manager, reg.(attached := true));
    }
  }

  /** Without a promise there is nothing to post. */
  lemma NothingPosted(ledger: map<AgentId, Ledger>, change: Change, agents: Agents)
    requires !Promises(agents, change)
    ensures PostedInMemory(ledger, change, agents) == ledger
  {
  }

  lemma BeginKeepsInv(s: System, placement: Placement, h: seq<L.Record<Snapshot>>, manager: L.OwnerId, change: Change, now: int)
    requires Inv(s, placement, h) && !Unbacked(s, placement, Begin(manager, change, now))
    ensures Inv(Next(s, placement, Begin(manager, change, now)), placement, h)
  {
    var reg := RegistryOf(s, manager);
    if reg.task.None? && manager != "" && Accepted(reg.agents, placement, change) {
      if !reg.attached && Durable(s.lease).Some? {
        NothingPosted(s.ledger, change, reg.agents);
      }
      NothingInFlight(s, placement, h, manager);
      var after := Changed(reg.agents, placement, change, now);
      ChangedIsWellPlaced(reg.agents, placement, change, now);
      SnapshotDescribes(reg.agents, now);
      SnapshotDescribes(after, now);
      var task := Task(Some(change), now, TakeSnapshot(reg.agents, now), after, TakeSnapshot(after, now), None);
      RegistryReplaced(s, placement, h, manager,
                       if !reg.attached then reg.(agents := after) else reg.(task := Some(task)));
    }
  }

  /** Rolling back keeps the fleet that the durable snapshot describes. */
  lemma FailKeepsInv(s: System, placement: Placement, h: seq<L.Record<Snapshot>>, manager: L.OwnerId, now: int)
    requires Inv(s, placement, h)
    ensures Inv(Next(s, placement, Fail(manager, now)), placement, h)
  {
    var reg := RegistryOf(s, manager);
    if reg.task.Some? && reg.task.value.inFlight.None? {
      NothingInFlight(s, placement, h, manager);
      assert RegistryOk(reg, placement);
      var task := reg.task.value;
      if task.change.None? {
        RegistryReplaced(s, placement, h, manager, reg.(task := None));
      } else {
        var agents := Restore(task.before, placement, now);
        RestoredIsDescribed(task.before, placement, now);
        if Durable(s.lease).Some? && Describes(Durable(s.lease).value, reg.agents) {
          DescribesTransfers(task.before, Durable(s.lease).value, reg.agents, agents);
        }
        RegistryReplaced(s, placement, h, manager, reg.(agents := agents, task := None));
      }
    }
  }

  lemma DetachKeepsInv(s: System, placement: Placement, h: seq<L.Record<Snapshot>>, manager: L.OwnerId)
    requires Inv(s, placement, h)
    ensures Inv(Next(s, placement, Detach(manager)), placement, h)
  {
    var reg := RegistryOf(s, manager);
    if reg.task.None? && manager != "" {
      NothingInFlight(s, placement, h, manager);
      RegistryReplaced(s, placement, h, manager, reg.(attached := false, synced := None));
    }
  }

  /** The pending change of a registry starts or ends an attempt; nothing durable changes. */
  lemma AttemptKeepsInv(s: System, placement: Placement, h: seq<L.Record<Snapshot>>, manager: L.OwnerId,
                        lease: L.State<Snapshot>, inFlight: Option<nat>)
    requires Inv(s, placement, h)
    requires manager in s.registries && s.registries[manager].task.Some?
    requires lease.store == s.lease.store
    requires forall op: nat | RegistryWrite(lease, op) ::
               if inFlight == Some(op) then
                 && lease.pending[op].manager == manager
                 && lease.pending[op].operation.value == s.registries[manager].task.value.value
                 && s.registries[manager].synced == Some(lease.pending[op].proposal.fence)
               else
                 RegistryWrite(s.lease, op) && lease.pending[op] == s.lease.pending[op] && lease.pending[op].manager != manager
    ensures var reg := s.registries[manager];
            Inv(System(lease, s.registries[manager := reg.(task := Some(reg.task.value.(inFlight := inFlight)))], s.ledger),
                placement, h)
  {
    var reg := s.registries[manager];
    var reg' := reg.(task := Some(reg.task.value.(inFlight := inFlight)));
    var s' := System(lease, s.registries[manager := reg'], s.ledger);
    assert RegistryOk(reg', placement) && SyncOk(s.lease, reg') by {
      hide Describes, WellPlaced, SupportedSnapshot;
      assert RegistryOk(reg, placement) && SyncOk(s.lease, reg);
    }
    hide RegistryOk, LedgerOk, SupportedSnapshot, Describes;
    forall m | m in s'.registries ensures SyncOk(s'.lease, s'.registries[m]) {
      assert SyncOk(s.lease, s.registries[m]);
    }
    forall op: nat | RegistryWrite(s'.lease, op) ensures WriteOk(s', op) {
      assert inFlight != Some(op) ==> WriteOk(s, op);
    }
  }

  lemma TryWriteKeepsInv(s: System, placement: Placement, h: seq<L.Record<Snapshot>>, manager: L.OwnerId, op: nat, now: int)
    requires Inv(s, placement, h)
    requires InSyncedTerm(s, TryWrite(manager, op, now))
    ensures Inv(Next(s, placement, TryWrite(manager, op, now)), placement, h)
  {
    var reg := RegistryOf(s, manager);
    if reg.task.Some? && reg.task.value.inFlight.None? && op !in s.lease.pending {
      NothingInFlight(s, placement, h, manager);
      TryKeepsDurable(s.lease, op, manager, reg.task.value.value, now);
      var lease := L.Next(s.lease, L.Read(op, manager, L.Mutate(REGISTRY, reg.task.value.value), now));
      AttemptKeepsInv(s, placement, h, manager, lease, if op in lease.pending then Some(op) else None);
    }
  }

  /** Only the writer itself can be synced in the term it writes in. */
  lemma OthersNotInTerm(s: System, placement: Placement, h: seq<L.Record<Snapshot>>, m: map<string, Snapshot>,
                        op: nat, other: L.OwnerId)
    requires L.Inv(s.lease, h, m) && Inv(s, placement, h)
    requires RegistryWrite(s.lease, op) && L.Commits(s.lease, op)
    requires other in s.registries && other != s.lease.pending[op].manager
    ensures !InTerm(s.lease, s.registries[other])
  {
    WriteReplacesDurable(s.lease, h, m, op);
    if InTerm(s.lease, s.registries[other]) {
      HeldByOne(h, other, s.lease.pending[op].manager, L.Fence(s.lease));
    }
  }

  /** A committed write is accounted for, and afterwards the writer has the durable fleet in memory. */
  lemma CommittedWriteKeepsInv(s: System, placement: Placement, h: seq<L.Record<Snapshot>>, h': seq<L.Record<Snapshot>>,
                               m: map<string, Snapshot>, op: nat)
    requires L.Inv(s.lease, h, m) && Inv(s, placement, h) && h <= h'
    requires RegistryWrite(s.lease, op) && L.Commits(s.lease, op)
    ensures Inv(Next(s, placement, Write(op)), placement, h')
  {
    var s', manager := Next(s, placement, Write(op)), s.lease.pending[op].manager;
    WriteReplacesDurable(s.lease, h, m, op);
    assert WriteOk(s, op);
    var reg := s.registries[manager];
    var task := reg.task.value;
    assert RegistryOk(reg, placement) && SyncOk(s.lease, reg) && InTerm(s.lease, reg);
    WrittenFleetIsWellPlaced(reg.agents, placement, task);
    TermsStayHeld(s, h, h');
    forall other | other in s'.registries ensures SyncOk(s'.lease, s'.registries[other]) {
      if other != manager {
        OthersNotInTerm(s, placement, h, m, op, other);
      }
    }
    forall o: nat | RegistryWrite(s'.lease, o) ensures WriteOk(s', o) {
      assert WriteOk(s, o);
    }
    WriteKeepsLedger(Durable(s.lease), s.ledger, reg.agents, placement, task);
  }

  lemma WrittenFleetIsWellPlaced(agents: Agents, placement: Placement, task: Task)
    requires WellPlaced(agents, placement) && TaskOk(task, agents, placement)
    ensures WellPlaced(task.after, placement) && SupportedSnapshot(task.value, placement)
  {
    if task.change.Some? {
      ChangedIsWellPlaced(agents, placement, task.change.value, task.at);
    }
    forall id | id in task.value ensures Supports(placement, id, task.value[id].version) {
      assert DescribesAgent(task.value[id], task.after[id]);
    }
  }

  lemma WriteKeepsLedger(durable: Option<Snapshot>, ledger: map<AgentId, Ledger>, agents: Agents, placement: Placement, task: Task)
    requires TaskOk(task, agents, placement) && LedgerOk(durable, ledger)
    requires durable.Some? ==> Describes(durable.value, agents)
    ensures LedgerOk(Some(task.value),
                     if durable.None? then FirstPosted(task.after)
                     else if task.change.Some? then Posted(ledger, task.change.value, agents)
                     else ledger)
  {
    assert task.after.Keys == task.value.Keys;
    forall id | id in task.value ensures task.value[id].commands == task.after[id].commands {
      assert DescribesAgent(task.value[id], task.after[id]);
    }
    if durable.None? {
      assert forall id | id in task.after :: [] + task.after[id].commands == task.after[id].commands;
    } else if task.change.Some? {
      PostedKeepsLedger(durable.value, ledger, agents, placement, task.change.value, task.at, task.value);
    } else {
      forall id | id in durable.value ensures durable.value[id].commands == agents[id].commands {
        assert DescribesAgent(durable.value[id], agents[id]);
      }
    }
  }

  lemma FailedWriteKeepsInv(s: System, placement: Placement, h: seq<L.Record<Snapshot>>, m: map<string, Snapshot>, op: nat)
    requires L.Inv(s.lease, h, m) && Inv(s, placement, h)
    requires RegistryWrite(s.lease, op) && !L.Commits(s.lease, op)
    ensures Inv(Next(s, placement, Write(op)), placement, h)
  {
    WriteReplacesDurable(s.lease, h, m, op);
    assert WriteOk(s, op);
    var lease, manager := L.Next(s.lease, L.Swap(op)), s.lease.pending[op].manager;
    forall o: nat | RegistryWrite(lease, o) ensures lease.pending[o].manager != manager {
      assert WriteOk(s, o);
    }
    AttemptKeepsInv(s, placement, h, manager, lease, None);
  }

  lemma StepKeepsInv(s: System, placement: Placement, h: seq<L.Record<Snapshot>>, h': seq<L.Record<Snapshot>>,
                     m: map<string, Snapshot>, step: Step)
    requires L.Inv(s.lease, h, m) && Inv(s, placement, h) && h <= h'
    requires InSyncedTerm(s, step) && !Unbacked(s, placement, step)
    ensures Inv(Next(s, placement, step), placement, h')
  {
    match step
    case LeaseStep(l) =>
      if Unrelated(s.lease, l) {
        LeaseStepKeepsInv(s, placement, h, h', m, l);
      }
    case AttachRead(manager, now) => AttachKeepsInv(s, placement, h, m, manager, now);
    case AttachFail(manager) => AttachFailKeepsInv(s, placement, h, manager);
    case Begin(manager, change, now) => BeginKeepsInv(s, placement, h, manager, change, now);
    case TryWrite(manager, op, now) => TryWriteKeepsInv(s, placement, h, manager, op, now);
    case Write(op) =>
      if RegistryWrite(s.lease, op) {
        if L.Commits(s.lease, op) {
          CommittedWriteKeepsInv(s, placement, h, h', m, op);
        } else {
          FailedWriteKeepsInv(s, placement, h, m, op);
        }
      }
    case Fail(manager, now) => FailKeepsInv(s, placement, h, manager, now);
    case Detach(manager) => DetachKeepsInv(s, placement, h, manager);
    TermsStayHeld(Next(s, placement, step), h, h');
  }

  // ---------------------------------------------------------------------------------------------
  // What holds of every disciplined run
  // ---------------------------------------------------------------------------------------------

  function Records(placement: Placement, steps: seq<Step>): (h: seq<L.Record<Snapshot>>) {
    L.History(LeaseSteps(placement, steps))
  }

  lemma RecordsGrow(placement: Placement, steps: seq<Step>)
    requires steps != []
    ensures Records(placement, steps[..|steps| - 1]) <= Records(placement, steps)
  {
    var before := LeaseSteps(placement, steps[..|steps| - 1]);
    assert LeaseSteps(placement, steps)[..|before|] == before;
    L.HistoryGrows(LeaseSteps(placement, steps), |before|);
  }

  lemma LeaseInvAlongRun(placement: Placement, steps: seq<Step>)
    ensures L.Inv(After(placement, steps).lease, Records(placement, steps), L.LastMutations(LeaseSteps(placement, steps)))
  {
    LeasePartIsARun(placement, steps);
    L.RunKeepsInv(LeaseSteps(placement, steps));
  }

  lemma {:induction false} RunKeepsInv(placement: Placement, steps: seq<Step>)
    requires Disciplined(placement, steps)
    ensures Inv(After(placement, steps), placement, Records(placement, steps))
  {
    if steps != [] {
      var before := steps[..|steps| - 1];
      RunKeepsInv(placement, before);
      LeaseInvAlongRun(placement, before);
      RecordsGrow(placement, steps);
      StepKeepsInv(After(placement, before), placement, Records(placement, before), Records(placement, steps),
                   L.LastMutations(LeaseSteps(placement, before)), Last(steps));
    }
  }

  /**
    * Across failed persists and failovers, the commands acknowledged for an Agent are those handed out
    * by persisted heartbeats, each once and in order, followed by exactly those still in the durable queue.
    */
  lemma AcknowledgedCommandsSurvive(placement: Placement, steps: seq<Step>)
    requires Disciplined(placement, steps)
    ensures LedgerOk(Durable(After(placement, steps).lease), After(placement, steps).ledger)
  {
    RunKeepsInv(placement, steps);
  }

  // ---------------------------------------------------------------------------------------------
  // Why the discipline is needed
  // ---------------------------------------------------------------------------------------------

  const OPEN: Placement := Placement(map[], {}, {})
  const HOST_X: Details := Details("x", 1, "", 1, "", -1, "1.0")

  function TakeLease(m: L.OwnerId, now: int): (r: seq<Step>) {
    [LeaseStep(L.Read(0, m, L.Acquire(10), now)), LeaseStep(L.Swap(0)), LeaseStep(L.Apply(0))]
  }

  function WriteThrough(m: L.OwnerId, now: int): (r: seq<Step>) {
    [TryWrite(m, 1, now), Write(1)]
  }

  /**
    * A registers X, takes the lease and attaches.  A's lease expires; B takes over, attaches and
    * acknowledges "c" for X.  B's lease expires and A renews into a new term without attaching again,
    * as the leadership loop does; then A acknowledges "d".
    */
  function FirstTerm(): (r: seq<Step>) {
    [Begin("A", Register("X", "l", HOST_X, "1", {}), 0)] + TakeLease("A", 0) + [AttachRead("A", 0)] + WriteThrough("A", 0)
  }

  function SecondTerm(): (r: seq<Step>) {
    FirstTerm() + TakeLease("B", 20) + [AttachRead("B", 20)] + WriteThrough("B", 20)
  }

  function SecondTermQueues(): (r: seq<Step>) {
    SecondTerm() + [Begin("B", Queue("X", Command("c", 0)), 20)] + WriteThrough("B", 20)
  }

  function StaleRun(): (r: seq<Step>) {
    SecondTermQueues() + TakeLease("A", 40) + [Begin("A", Queue("X", Command("d", 0)), 40)] + WriteThrough("A", 40)
  }

  lemma AfterOneMore(run: seq<Step>, step: Step)
    ensures After(OPEN, run + [step]) == Next(After(OPEN, run), OPEN, step)
  {
    assert (run + [step])[..|run|] == run;
  }

  lemma TakesLease(run: seq<Step>, m: L.OwnerId, now: int)
    requires m != "" && After(OPEN, run).lease.pending == map[]
    requires var store := After(OPEN, run).lease.store; store.None? || L.Expired(store.value, now)
    ensures var s := After(OPEN, run);
            var fence := L.Fence(s.lease) + 1;
            var state := if s.lease.store.None? then map[] else s.lease.store.value.state;
            After(OPEN, run + TakeLease(m, now))
            == s.(lease := L.State(Some(L.Record(m, now, 10, fence, state)), s.lease.locals[m := L.Local(true, fence)], map[]))
  {
    var steps := TakeLease(m, now);
    AfterOneMore(run, steps[0]);
    AfterOneMore(run + [steps[0]], steps[1]);
    AfterOneMore(run + [steps[0]] + [steps[1]], steps[2]);
    assert run + [steps[0]] + [steps[1]] + [steps[2]] == run + steps;
    var s := After(OPEN, run);
    var s1 := Next(s, OPEN, steps[0]);
    var s2 := Next(s1, OPEN, steps[1]);
    assert s2.lease.pending - {0} == map[];
  }

  /** The state is ready for `WriteThrough`. */
  ghost predicate Ready(s: System, m: L.OwnerId, now: int) {
    && m != "" && s.lease.pending == map[] && s.lease.store.Some?
    && L.LiveOwner(s.lease.store.value, m, now) && L.LocalOf(s.lease, m).fence == s.lease.store.value.fence
    && m in s.registries && s.registries[m].task.Some? && s.registries[m].task.value.inFlight.None?
  }

  /** The system after a task wrote its value in a live term. */
  function Written(s: System, m: L.OwnerId): (r: System)
    requires s.lease.store.Some? && m in s.registries && s.registries[m].task.Some?
  {
    var reg, rec := s.registries[m], s.lease.store.value;
    var task := reg.task.value;
    System(s.lease.(store := Some(rec.(state := rec.state[REGISTRY := task.value]))),
           s.registries[m := reg.(agents := task.after, task := None)],
           if Durable(s.lease).None? then FirstPosted(task.after)
           else if task.change.Some? then Posted(s.ledger, task.change.value, reg.agents)
           else s.ledger)
  }

  lemma WritesThrough(run: seq<Step>, m: L.OwnerId, now: int)
    requires Ready(After(OPEN, run), m, now)
    ensures After(OPEN, run + WriteThrough(m, now)) == Written(After(OPEN, run), m)
  {
    var steps := WriteThrough(m, now);
    AfterOneMore(run, steps[0]);
    AfterOneMore(run + [steps[0]], steps[1]);
    assert run + [steps[0]] + [steps[1]] == run + steps;
    TryThenWrite(After(OPEN, run), m, now);
  }

  lemma TryThenWrite(s: System, m: L.OwnerId, now: int)
    requires Ready(s, m, now)
    ensures Next(Next(s, OPEN, TryWrite(m, 1, now)), OPEN, Write(1)) == Written(s, m)
  {
    var reg, rec := s.registries[m], s.lease.store.value;
    var proposal := rec.(state := rec.state[REGISTRY := reg.task.value.value]);
    var inFlight := L.InFlight(m, L.Mutate(REGISTRY, reg.task.value.value), now, s.lease.store, proposal);
    var s1 := Next(s, OPEN, TryWrite(m, 1, now));
    assert s1.lease == s.lease.(pending := map[1 := inFlight]);
    assert s1.registries == s.registries[m := reg.(task := Some(reg.task.value.(inFlight := Some(1))))];
    assert s1.lease.pending - {1} == map[];
    assert s1.registries[m := reg.(agents := reg.task.value.after, task := None)]
        == s.registries[m := reg.(agents := reg.task.value.after, task := None)];
  }

  /** `owner` holds the durable term, X's durable queue is `queue`, and A still has X with an empty queue in memory. */
  ghost predicate Phase(s: System, owner: L.OwnerId, at: int, fence: nat, queue: seq<Command>, ledger: Ledger) {
    && s.lease.pending == map[]
    && s.lease.store.Some?
    && s.lease.store.value.(state := map[]) == L.Record(owner, at, 10, fence, map[])
    && L.LocalOf(s.lease, owner).fence == fence
    && Durable(s.lease).Some? && Durable(s.lease).value.Keys == {"X"}
    && Durable(s.lease).value["X"].commands == queue
    && s.ledger == map["X" := ledger]
    && Holds(RegistryOf(s, "A"), [])
  }

  ghost predicate Holds(reg: Registry, queue: seq<Command>) {
    reg.task.None? && reg.attached && reg.agents.Keys == {"X"} && reg.agents["X"].commands == queue
  }

  lemma FirstAttach(s: System)
    requires s.registries == map["A" := Registry(map["X" := AgentX()], false, None, None)] && s.ledger == map[]
    requires s.lease == L.State(Some(L.Record("A", 0, 10, 1, map[])), map["A" := L.Local(true, 1)], map[])
    ensures var s1 := Next(s, OPEN, AttachRead("A", 0));
            && Ready(s1, "A", 0)
            && Phase(Written(s1, "A"), "A", 0, 1, [], Ledger([], []))
            && RegistryOf(Written(s1, "A"), "B").task.None?
  {
  }

  function AgentX(): (a: Agent) {
    Agent("l", HOST_X, "1", {}, None, Report(0, [], map[]), [], false, 0, 0)
  }

  lemma FirstTermEnds()
    ensures Phase(After(OPEN, FirstTerm()), "A", 0, 1, [], Ledger([], []))
    ensures RegistryOf(After(OPEN, FirstTerm()), "B").task.None?
  {
    var register := Begin("A", Register("X", "l", HOST_X, "1", {}), 0);
    assert After(OPEN, []) == System(L.Init(), map[], map[]);
    hide After;
    AfterOneMore([], register);
    assert [] + [register] == [register];
    assert After(OPEN, [register]).registries == map["A" := Registry(map["X" := AgentX()], false, None, None)];
    TakesLease([register], "A", 0);
    var run := [register] + TakeLease("A", 0);
    FirstAttach(After(OPEN, run));
    AfterOneMore(run, AttachRead("A", 0));
    WritesThrough(run + [AttachRead("A", 0)], "A", 0);
  }

  /** Whoever takes the expired lease leaves the fleets alone. */
  lemma TakeoverKeepsPhase(run: seq<Step>, owner: L.OwnerId, at: int, fence: nat, queue: seq<Command>, ledger: Ledger,
                           m: L.OwnerId, now: int)
    requires Phase(After(OPEN, run), owner, at, fence, queue, ledger)
    requires m != "" && now - at > 10
    ensures Phase(After(OPEN, run + TakeLease(m, now)), m, now, fence + 1, queue, ledger)
    ensures After(OPEN, run + TakeLease(m, now)).registries == After(OPEN, run).registries
  {
    TakesLease(run, m, now);
  }

  lemma RestoresX(d: Snapshot, now: int)
    requires d.Keys == {"X"}
    ensures Restore(d, OPEN, now).Keys == {"X"} && Restore(d, OPEN, now)["X"].commands == d["X"].commands
    ensures TakeSnapshot(Restore(d, OPEN, now), now).Keys == {"X"}
    ensures TakeSnapshot(Restore(d, OPEN, now), now)["X"].commands == d["X"].commands
  {
  }

  lemma Attaches(s: System, m: L.OwnerId, at: int, fence: nat, queue: seq<Command>, ledger: Ledger)
    requires Phase(s, m, at, fence, queue, ledger) && m != "" && m != "A" && RegistryOf(s, m).task.None?
    ensures var s1 := Next(s, OPEN, AttachRead(m, at));
            && Ready(s1, m, at)
            && Phase(Written(s1, m), m, at, fence, queue, ledger)
            && Holds(RegistryOf(Written(s1, m), m), queue)
  {
    RestoresX(Durable(s.lease).value, at);
  }

  lemma SecondTermEnds()
    ensures Phase(After(OPEN, SecondTerm()), "B", 20, 2, [], Ledger([], []))
    ensures Holds(RegistryOf(After(OPEN, SecondTerm()), "B"), [])
  {
    hide After;
    FirstTermEnds();
    TakeoverKeepsPhase(FirstTerm(), "A", 0, 1, [], Ledger([], []), "B", 20);
    var run := FirstTerm() + TakeLease("B", 20);
    Attaches(After(OPEN, run), "B", 20, 2, [], Ledger([], []));
    AfterOneMore(run, AttachRead("B", 20));
    WritesThrough(run + [AttachRead("B", 20)], "B", 20);
  }

  /** Queueing a command writes the writer's own queue back, whatever the durable queue was. */
  lemma Queues(s: System, m: L.OwnerId, at: int, fence: nat, queue: seq<Command>, mine: seq<Command>,
               ledger: Ledger, command: Command)
    requires Phase(s, m, at, fence, queue, ledger) && m != "" && Holds(RegistryOf(s, m), mine) && command.kind != "drain"
    ensures var s1 := Next(s, OPEN, Begin(m, Queue("X", command), at));
            && Ready(s1, m, at)
            && Durable(Written(s1, m).lease).Some?
            && Durable(Written(s1, m).lease).value.Keys == {"X"}
            && Durable(Written(s1, m).lease).value["X"].commands == mine + [command]
            && Written(s1, m).ledger == map["X" := ledger.(acked := ledger.acked + [command])]
            && (m != "A" ==> Phase(Written(s1, m), m, at, fence, mine + [command], ledger.(acked := ledger.acked + [command])))
  {
    var after := Changed(RegistryOf(s, m).agents, OPEN, Queue("X", command), at);
    assert after.Keys == {"X"} && after["X"].commands == mine + [command];
    assert TakeSnapshot(after, at).Keys == {"X"};
  }

  lemma SecondTermQueuesEnds()
    ensures Phase(After(OPEN, SecondTermQueues()), "B", 20, 2, [Command("c", 0)], Ledger([Command("c", 0)], []))
  {
    hide After;
    SecondTermEnds();
    Queues(After(OPEN, SecondTerm()), "B", 20, 2, [], [], Ledger([], []), Command("c", 0));
    AfterOneMore(SecondTerm(), Begin("B", Queue("X", Command("c", 0)), 20));
    WritesThrough(SecondTerm() + [Begin("B", Queue("X", Command("c", 0)), 20)], "B", 20);
    assert [] + [Command("c", 0)] == [Command("c", 0)];
  }

  /**
    * Without the discipline an acknowledged command is lost: after the run above both "c" and "d" were
    * acknowledged for X and none was handed out, but only "d" is left in the durable queue.
    */
  lemma StaleFleetLosesCommand()
    ensures !Disciplined(OPEN, StaleRun())
    ensures var s := After(OPEN, StaleRun());
            && s.ledger == map["X" := Ledger([Command("c", 0), Command("d", 0)], [])]
            && Durable(s.lease).Some? && "X" in Durable(s.lease).value
            && Durable(s.lease).value["X"].commands == [Command("d", 0)]
            && !LedgerOk(Durable(s.lease), s.ledger)
  {
    hide After, Disciplined;
    SecondTermQueuesEnds();
    TakeoverKeepsPhase(SecondTermQueues(), "B", 20, 2, [Command("c", 0)], Ledger([Command("c", 0)], []), "A", 40);
    var run := SecondTermQueues() + TakeLease("A", 40);
    Queues(After(OPEN, run), "A", 40, 3, [Command("c", 0)], [], Ledger([Command("c", 0)], []), Command("d", 0));
    AfterOneMore(run, Begin("A", Queue("X", Command("d", 0)), 40));
    WritesThrough(run + [Begin("A", Queue("X", Command("d", 0)), 40)], "A", 40);
    assert [Command("c", 0)] + [Command("d", 0)] == [Command("c", 0), Command("d", 0)];
    assert [] + [Command("d", 0)] == [Command("d", 0)];
    var s := After(OPEN, StaleRun());
    assert s.ledger["X"].acked != s.ledger["X"].delivered + Durable(s.lease).value["X"].commands;
    if Disciplined(OPEN, StaleRun()) {
      AcknowledgedCommandsSurvive(OPEN, StaleRun());
    }
  }
}
