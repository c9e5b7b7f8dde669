/**
  * Runs of registries and lease without any discipline: exactly when every acknowledged command survives.
  * A run loses one exactly when some committed write found its writer's fleet out of date, or a detached registry
  * acknowledged or handed out a command.
  */
module RegistrySafety {
  import opened Wrappers
  import opened Sequences
  import L = Lease
  import opened Fleet
  import opened RegistryRuns

  function DurableQueue(durable: Snapshot, id: AgentId): seq<Command> {
    if id in durable then durable[id].commands else []
  }

  predicate SameQueue(durable: Snapshot, agents: Agents, id: AgentId) {
    (id in durable <==> id in agents) && (id in durable && id in agents ==> agents[id].commands == durable[id].commands)
  }

  /** The fleet in memory has what the durable one has for `id`, as far as the change depends on it. */
  predicate CurrentAt(durable: Snapshot, agents: Agents, change: Change, id: AgentId) {
    if (change.Register? || change.Remove?) && change.id == id then true
    else if (change.Queue? || change.Heartbeat?) && change.id == id then
      id in agents && agents[id].commands == DurableQueue(durable, id)
    else SameQueue(durable, agents, id)
  }

  /** The ledger still accounts for `id`. */
  ghost predicate AccountedAt(value: Snapshot, ledger: map<AgentId, Ledger>, id: AgentId) {
    (id in ledger <==> id in value) && (id in ledger && id in value ==> ledger[id].acked == ledger[id].delivered + value[id].commands)
  }

  lemma AccountedEverywhere(value: Snapshot, ledger: map<AgentId, Ledger>)
    ensures LedgerOk(Some(value), ledger) <==> forall id :: AccountedAt(value, ledger, id)
  {
    if forall id :: AccountedAt(value, ledger, id) {
      forall id
        ensures id in ledger <==> id in value
      {
        assert AccountedAt(value, ledger, id);
      }
      assert ledger.Keys == value.Keys;
      assert forall id | id in ledger :: AccountedAt(value, ledger, id);
    }
  }

  lemma AccountedIffCurrent(durable: Snapshot, ledger: map<AgentId, Ledger>, agents: Agents, placement: Placement,
                            change: Change, at: int, id: AgentId)
    requires Accepted(agents, placement, change) && AccountedAt(durable, ledger, id)
    ensures AccountedAt(TakeSnapshot(Changed(agents, placement, change, at), at), Posted(ledger, change, agents), id)
       <==> CurrentAt(durable, agents, change, id)
  {
    var delivered := LedgerOf(ledger, id).delivered;
    var mine, theirs := if id in agents then agents[id].commands else [], DurableQueue(durable, id);
    assert delivered + theirs == LedgerOf(ledger, id).acked by {
      assert delivered + theirs + [] == delivered + theirs;
    }
    SameAfterPrefix(delivered, mine, theirs);
    assert (delivered + mine) + [] == delivered + mine;
    if change.Queue? || change.Broadcast? {
      SnocCancel(delivered + mine, change.command, delivered + theirs, change.command);
      AppendAssociative(delivered, mine, [change.command]);
    }
  }

  lemma SameAfterPrefix(prefix: seq<Command>, a: seq<Command>, b: seq<Command>)
    ensures prefix + a == prefix + b <==> a == b
  {
    assert (prefix + a)[|prefix|..] == a && (prefix + b)[|prefix|..] == b;
  }

  /**
    * A committed change keeps the ledger exactly when the writer's fleet was current: same Agents and same
    * queues as the durable fleet, except for an Agent that the change registers anew or removes.
    */
  lemma WriteIsSafeIff(durable: Snapshot, ledger: map<AgentId, Ledger>, agents: Agents, placement: Placement, change: Change, at: int)
    requires Accepted(agents, placement, change) && LedgerOk(Some(durable), ledger)
    ensures LedgerOk(Some(TakeSnapshot(Changed(agents, placement, change, at), at)), Posted(ledger, change, agents))
       <==> forall id :: CurrentAt(durable, agents, change, id)
  {
    hide Changed, Posted, CurrentAt, TakeSnapshot, LedgerOk, AccountedAt;
    var value, next := TakeSnapshot(Changed(agents, placement, change, at), at), Posted(ledger, change, agents);
    AccountedEverywhere(durable, ledger);
    AccountedEverywhere(value, next);
    forall id
      ensures AccountedAt(value, next, id) <==> CurrentAt(durable, agents, change, id)
    {
      AccountedIffCurrent(durable, ledger, agents, placement, change, at, id);
    }
  }

  // An attach writes the fleet it restored.

  lemma AttachAt(durable: Snapshot, ledger: map<AgentId, Ledger>, agents: Agents, at: int, id: AgentId)
    requires AccountedAt(durable, ledger, id)
    ensures AccountedAt(TakeSnapshot(agents, at), ledger, id) <==> SameQueue(durable, agents, id)
  {
    if id in ledger && id in agents {
      SameAfterPrefix(ledger[id].delivered, agents[id].commands, durable[id].commands);
    }
  }

  /** Attaching over a durable fleet keeps the ledger exactly when the restored fleet still has its Agents and queues. */
  lemma AttachIsSafeIff(durable: Snapshot, ledger: map<AgentId, Ledger>, agents: Agents, at: int)
    requires LedgerOk(Some(durable), ledger)
    ensures LedgerOk(Some(TakeSnapshot(agents, at)), ledger) <==> forall id :: SameQueue(durable, agents, id)
  {
    hide SameQueue, TakeSnapshot, LedgerOk, AccountedAt;
    AccountedEverywhere(durable, ledger);
    AccountedEverywhere(TakeSnapshot(agents, at), ledger);
    forall id
      ensures AccountedAt(TakeSnapshot(agents, at), ledger, id) <==> SameQueue(durable, agents, id)
    {
      AttachAt(durable, ledger, agents, at, id);
    }
  }

  lemma FirstAttachIsSafe(agents: Agents, at: int)
    ensures LedgerOk(Some(TakeSnapshot(agents, at)), FirstPosted(agents))
  {
    assert forall id | id in agents :: [] + agents[id].commands == agents[id].commands;
  }

  // What every step of every run keeps.

  ghost predicate TaskBase(t: Task, agents: Agents, placement: Placement) {
    && t.value == TakeSnapshot(t.after, t.at)
    && (if t.change.None? then t.after == agents
        else Accepted(agents, placement, t.change.value) && t.after == Changed(agents, placement, t.change.value, t.at))
  }

  /** Only an attached registry has a pending change, and it is a change of its fleet. */
  ghost predicate RegistryBase(reg: Registry, placement: Placement) {
    && WellPlaced(reg.agents, placement)
    && (reg.task.Some? ==> reg.attached && TaskBase(reg.task.value, reg.agents, placement))
  }

  /** A registry write in flight belongs to the change that holds the lock. */
  ghost predicate WriteBase(s: System, op: nat)
    requires RegistryWrite(s.lease, op)
  {
    var p := s.lease.pending[op];
    && p.manager in s.registries && s.registries[p.manager].task.Some?
    && s.registries[p.manager].task.value.inFlight == Some(op)
    && s.registries[p.manager].task.value.value == p.operation.value
  }

  ghost predicate Base(s: System, placement: Placement) {
    && (forall m | m in s.registries :: m != "" && RegistryBase(s.registries[m], placement))
    && (forall op: nat | RegistryWrite(s.lease, op) :: WriteBase(s, op))
    && (Durable(s.lease).Some? ==> SupportedSnapshot(Durable(s.lease).value, placement))
    && (Durable(s.lease).None? ==> s.ledger == map[])
  }

  predicate Committing(s: System, step: Step) {
    step.Write? && RegistryWrite(s.lease, step.op) && L.Commits(s.lease, step.op)
  }

  /** Nothing is in flight for `m`, so its registry can be replaced. */
  lemma BaseReplaced(s: System, placement: Placement, m: L.OwnerId, reg: Registry)
    requires Base(s, placement) && m != ""
    requires RegistryOf(s, m).task.None? || RegistryOf(s, m).task.value.inFlight.None?
    requires RegistryBase(reg, placement)
    ensures Base(s.(registries := s.registries[m := reg]), placement)
  {
    hide RegistryBase;
    var s' := s.(registries := s.registries[m := reg]);
    forall op: nat | RegistryWrite(s'.lease, op)
      ensures WriteBase(s', op)
    {
      assert WriteBase(s, op);
    }
  }

  lemma RestoreIsWellPlaced(snapshot: Snapshot, placement: Placement, now: int)
    ensures WellPlaced(Restore(snapshot, placement, now), placement)
  {
  }

  lemma SnapshotIsSupported(agents: Agents, placement: Placement, now: int)
    requires WellPlaced(agents, placement)
    ensures SupportedSnapshot(TakeSnapshot(agents, now), placement)
  {
  }

  lemma AbsentIsBase(s: System, placement: Placement, m: L.OwnerId)
    requires Base(s, placement)
    ensures RegistryBase(RegistryOf(s, m), placement)
  {
  }

  /** Posting commands to the ledger touches nothing else, once there is a durable fleet. */
  lemma BasePosted(s: System, placement: Placement, ledger: map<AgentId, Ledger>)
    requires Base(s, placement) && (Durable(s.lease).None? ==> ledger == s.ledger)
    ensures Base(s.(ledger := ledger), placement)
  {
    hide RegistryBase;
    var s' := s.(ledger := ledger);
    forall op: nat | RegistryWrite(s'.lease, op)
      ensures WriteBase(s', op)
    {
      assert WriteBase(s, op);
    }
  }

  lemma BeginKeepsBase(s: System, placement: Placement, m: L.OwnerId, change: Change, now: int)
    requires Base(s, placement)
    ensures var s' := Next(s, placement, Begin(m, change, now)); Base(s', placement) && s'.lease == s.lease
  {
    hide Base, Changed, TakeSnapshot, WellPlaced, PostedInMemory;
    var reg := RegistryOf(s, m);
    AbsentIsBase(s, placement, m);
    if reg.task.None? && m != "" && Accepted(reg.agents, placement, change) {
      var after := Changed(reg.agents, placement, change, now);
      ChangedIsWellPlaced(reg.agents, placement, change, now);
      if reg.attached {
        BaseReplaced(s, placement, m, reg.(task := Some(Task(Some(change), now, TakeSnapshot(reg.agents, now), after,
                                                             TakeSnapshot(after, now), None))));
      } else {
        var s1 := s.(registries := s.registries[m := reg.(agents := after)]);
        BaseReplaced(s, placement, m, reg.(agents := after));
        BasePosted(s1, placement, Next(s, placement, Begin(m, change, now)).ledger);
      }
    }
  }

  lemma QuietStepKeepsBase(s: System, placement: Placement, step: Step)
    requires Base(s, placement) && (step.AttachRead? || step.AttachFail? || step.Fail? || step.Detach?)
    ensures var s' := Next(s, placement, step); Base(s', placement) && s'.lease == s.lease && s'.ledger == s.ledger
  {
    hide Base, Restore, Changed, TakeSnapshot, WellPlaced;
    var m := step.manager;
    var reg := RegistryOf(s, m);
    AbsentIsBase(s, placement, m);
    if step.AttachRead? && reg.task.None? && m != "" {
      var durable := Durable(s.lease);
      var agents := if durable.Some? then Restore(durable.value, placement, step.now) else reg.agents;
      var value := TakeSnapshot(agents, step.now);
      if durable.Some? {
        RestoreIsWellPlaced(durable.value, placement, step.now);
      }
      BaseReplaced(s, placement, m, Registry(agents, true, Some(L.LocalOf(s.lease, m).fence),
                                             Some(Task(None, step.now, value, agents, value, None))));
    } else if step.AttachFail? && reg.task.None? && m != "" {
      BaseReplaced(s, placement, m, reg.(attached := true));
    } else if step.Fail? && reg.task.Some? && reg.task.value.inFlight.None? {
      PresentHasName(s, placement, m);
      RestoreIsWellPlaced(reg.task.value.before, placement, step.now);
      BaseReplaced(s, placement, m,
                   if reg.task.value.change.None? then reg.(task := None)
                   else reg.(agents := Restore(reg.task.value.before, placement, step.now), task := None));
    } else if step.Detach? && reg.task.None? && m != "" {
      BaseReplaced(s, placement, m, reg.(attached := false, synced := None));
    }
  }

  lemma PresentHasName(s: System, placement: Placement, m: L.OwnerId)
    requires Base(s, placement) && RegistryOf(s, m).task.Some?
    ensures m != ""
  {
  }

  lemma LeaseStepKeepsBase(s: System, placement: Placement, h: seq<L.Record<Snapshot>>, m: map<string, Snapshot>,
                           step: L.Step<Snapshot>)
    requires L.Inv(s.lease, h, m) && Base(s, placement)
    ensures var s' := Next(s, placement, LeaseStep(step));
            Base(s', placement) && Durable(s'.lease) == Durable(s.lease) && s'.ledger == s.ledger
  {
    hide RegistryBase;
    if Unrelated(s.lease, step) {
      UnrelatedKeepsDurable(s.lease, h, m, step);
      hide L.Next, L.Inv, Unrelated;
      var s' := Next(s, placement, LeaseStep(step));
      forall op: nat | RegistryWrite(s'.lease, op)
        ensures WriteBase(s', op)
      {
        assert WriteBase(s, op);
      }
    }
  }

  /** An attempt of `m` starts or ends; nothing durable changes. */
  lemma AttemptKeepsBase(s: System, placement: Placement, m: L.OwnerId, lease: L.State<Snapshot>, inFlight: Option<nat>)
    requires Base(s, placement) && m in s.registries && s.registries[m].task.Some? && lease.store == s.lease.store
    requires forall op: nat | RegistryWrite(lease, op) ::
               if inFlight == Some(op) then
                 lease.pending[op].manager == m && lease.pending[op].operation.value == s.registries[m].task.value.value
               else
                 RegistryWrite(s.lease, op) && lease.pending[op] == s.lease.pending[op] && lease.pending[op].manager != m
    ensures var reg := s.registries[m];
            Base(System(lease, s.registries[m := reg.(task := Some(reg.task.value.(inFlight := inFlight)))], s.ledger), placement)
  {
    var reg := s.registries[m];
    var reg' := reg.(task := Some(reg.task.value.(inFlight := inFlight)));
    var s' := System(lease, s.registries[m := reg'], s.ledger);
    assert RegistryBase(reg', placement);
    hide RegistryBase;
    forall op: nat | RegistryWrite(s'.lease, op)
      ensures WriteBase(s', op)
    {
      assert inFlight != Some(op) ==> WriteBase(s, op);
    }
  }

  lemma OnlyOwnWrite(s: System, placement: Placement, m: L.OwnerId, op: nat)
    requires Base(s, placement) && RegistryWrite(s.lease, op) && s.lease.pending[op].manager == m
    ensures RegistryOf(s, m).task.Some? && RegistryOf(s, m).task.value.inFlight == Some(op)
  {
    assert WriteBase(s, op);
  }

  lemma TryWriteKeepsBase(s: System, placement: Placement, m: L.OwnerId, op: nat, now: int)
    requires Base(s, placement)
    ensures var s' := Next(s, placement, TryWrite(m, op, now));
            Base(s', placement) && Durable(s'.lease) == Durable(s.lease) && s'.ledger == s.ledger
  {
    var reg := RegistryOf(s, m);
    if reg.task.Some? && reg.task.value.inFlight.None? && op !in s.lease.pending {
      TryKeepsDurable(s.lease, op, m, reg.task.value.value, now);
      var lease := L.Next(s.lease, L.Read(op, m, L.Mutate(REGISTRY, reg.task.value.value), now));
      hide L.Next, RegistryBase;
      forall o: nat | RegistryWrite(s.lease, o)
        ensures s.lease.pending[o].manager != m
      {
        assert WriteBase(s, o);
      }
      AttemptKeepsBase(s, placement, m, lease, if op in lease.pending then Some(op) else None);
    }
  }

  lemma FailedWriteKeepsBase(s: System, placement: Placement, h: seq<L.Record<Snapshot>>, m: map<string, Snapshot>, op: nat)
    requires L.Inv(s.lease, h, m) && Base(s, placement) && RegistryWrite(s.lease, op) && !L.Commits(s.lease, op)
    ensures var s' := Next(s, placement, Write(op));
            Base(s', placement) && Durable(s'.lease) == Durable(s.lease) && s'.ledger == s.ledger
  {
    WriteReplacesDurable(s.lease, h, m, op);
    var lease, manager := L.Next(s.lease, L.Swap(op)), s.lease.pending[op].manager;
    assert lease.store == s.lease.store;
    hide L.Next, L.Inv, RegistryBase;
    OnlyOwnWrite(s, placement, manager, op);
    forall o: nat | RegistryWrite(lease, o)
      ensures lease.pending[o].manager != manager
    {
      assert WriteBase(s, o);
    }
    AttemptKeepsBase(s, placement, manager, lease, None);
  }

  /** What a committed write leaves behind. */
  lemma CommittedWrite(s: System, placement: Placement, h: seq<L.Record<Snapshot>>, m: map<string, Snapshot>, op: nat)
    requires L.Inv(s.lease, h, m) && Base(s, placement) && RegistryWrite(s.lease, op) && L.Commits(s.lease, op)
    ensures var s', reg := Next(s, placement, Write(op)), RegistryOf(s, s.lease.pending[op].manager);
            && reg.task.Some? && TaskBase(reg.task.value, reg.agents, placement)
            && Durable(s'.lease) == Some(reg.task.value.value)
            && s'.ledger == (if Durable(s.lease).None? then FirstPosted(reg.task.value.after)
                             else if reg.task.value.change.Some? then Posted(s.ledger, reg.task.value.change.value, reg.agents)
                             else s.ledger)
            && Base(s', placement)
  {
    WriteReplacesDurable(s.lease, h, m, op);
    var lease, manager := L.Next(s.lease, L.Swap(op)), s.lease.pending[op].manager;
    hide L.Next, L.Inv, Posted, TakeSnapshot, Changed;
    assert WriteBase(s, op);
    var reg := s.registries[manager];
    var task, s' := reg.task.value, Next(s, placement, Write(op));
    if task.change.Some? {
      ChangedIsWellPlaced(reg.agents, placement, task.change.value, task.at);
    }
    SnapshotIsSupported(task.after, placement, task.at);
    forall o: nat | RegistryWrite(s'.lease, o)
      ensures WriteBase(s', o)
    {
      assert WriteBase(s, o);
    }
  }

  lemma StepKeepsBase(s: System, placement: Placement, h: seq<L.Record<Snapshot>>, m: map<string, Snapshot>, step: Step)
    requires L.Inv(s.lease, h, m) && Base(s, placement)
    ensures Base(Next(s, placement, step), placement)
    ensures !Committing(s, step) ==>
              var s' := Next(s, placement, step);
              Durable(s'.lease) == Durable(s.lease) && (!step.Begin? ==> s'.ledger == s.ledger)
  {
    hide Base, L.Inv;
    match step
    case LeaseStep(l) => LeaseStepKeepsBase(s, placement, h, m, l);
    case TryWrite(manager, op, now) => TryWriteKeepsBase(s, placement, manager, op, now);
    case Write(op) =>
      if RegistryWrite(s.lease, op) {
        if L.Commits(s.lease, op) {
          CommittedWrite(s, placement, h, m, op);
        } else {
          FailedWriteKeepsBase(s, placement, h, m, op);
        }
      }
    case AttachRead(_, _) => QuietStepKeepsBase(s, placement, step);
    case AttachFail(_) => QuietStepKeepsBase(s, placement, step);
    case Begin(manager, change, now) => BeginKeepsBase(s, placement, manager, change, now);
    case Fail(_, _) => QuietStepKeepsBase(s, placement, step);
    case Detach(_) => QuietStepKeepsBase(s, placement, step);
  }

  lemma {:induction false} RunKeepsBase(placement: Placement, steps: seq<Step>)
    ensures Base(After(placement, steps), placement)
  {
    if steps != [] {
      hide Base, Next;
      var before := steps[..|steps| - 1];
      RunKeepsBase(placement, before);
      LeaseInvAlongRun(placement, before);
      StepKeepsBase(After(placement, before), placement, Records(placement, before),
                    L.LastMutations(LeaseSteps(placement, before)), Last(steps));
    }
  }

  // Exactly when every acknowledged command survives a run.

  /** If the step commits a write, the writer's fleet was current, for a change as far as it depends on it. */
  ghost predicate FoundCurrent(s: System, step: Step) {
    Committing(s, step) ==>
      var reg, durable := RegistryOf(s, s.lease.pending[step.op].manager), Durable(s.lease);
      reg.task.Some? && durable.Some? ==>
        match reg.task.value.change
        case Some(change) => forall id :: CurrentAt(durable.value, reg.agents, change, id)
        case None => forall id :: SameQueue(durable.value, reg.task.value.after, id)
  }

  /** What a detached registry posts is never accounted for, unless it posts nothing. */
  lemma InMemoryIsSafeIff(durable: Snapshot, ledger: map<AgentId, Ledger>, change: Change, agents: Agents, placement: Placement)
    requires LedgerOk(Some(durable), ledger) && Accepted(agents, placement, change)
    ensures LedgerOk(Some(durable), PostedInMemory(ledger, change, agents)) <==> !Promises(agents, change)
  {
    if Promises(agents, change) {
      var id :| id in agents && (change.Broadcast? || change.id == id);
      var l := LedgerOf(PostedInMemory(ledger, change, agents), id);
      if id in durable {
        assert |l.acked| != |l.delivered + durable[id].commands|;
      }
    } else {
      NothingPosted(ledger, change, agents);
    }
  }

  lemma BeginAccountsIff(s: System, placement: Placement, m: L.OwnerId, change: Change, now: int)
    requires Base(s, placement) && LedgerOk(Durable(s.lease), s.ledger)
    ensures var s', step := Next(s, placement, Begin(m, change, now)), Begin(m, change, now);
            LedgerOk(Durable(s'.lease), s'.ledger) <==> !Unbacked(s, placement, step)
  {
    hide Base, LedgerOk, Changed, Promises, PostedInMemory, TakeSnapshot, Accepted;
    var reg := RegistryOf(s, m);
    if Durable(s.lease).Some? && Accepted(reg.agents, placement, change) {
      InMemoryIsSafeIff(Durable(s.lease).value, s.ledger, change, reg.agents, placement);
    }
  }

  /** A step keeps the account exactly when the writer it commits for, if any, is current and it is no unbacked promise. */
  lemma StepAccountsIff(s: System, placement: Placement, h: seq<L.Record<Snapshot>>, m: map<string, Snapshot>, step: Step)
    requires L.Inv(s.lease, h, m) && Base(s, placement) && LedgerOk(Durable(s.lease), s.ledger)
    ensures var s' := Next(s, placement, step);
            LedgerOk(Durable(s'.lease), s'.ledger) <==> FoundCurrent(s, step) && !Unbacked(s, placement, step)
  {
    hide Base, L.Inv, LedgerOk, Next, CurrentAt, SameQueue, TakeSnapshot, Posted, Changed, Promises;
    StepKeepsBase(s, placement, h, m, step);
    if step.Begin? {
      BeginAccountsIff(s, placement, step.manager, step.change, step.now);
    } else if Committing(s, step) {
      CommittedWrite(s, placement, h, m, step.op);
      var reg, durable := RegistryOf(s, s.lease.pending[step.op].manager), Durable(s.lease);
      var task := reg.task.value;
      if durable.None? {
        FirstAttachIsSafe(task.after, task.at);
      } else if task.change.Some? {
        WriteIsSafeIff(durable.value, s.ledger, reg.agents, placement, task.change.value, task.at);
      } else {
        AttachIsSafeIff(durable.value, s.ledger, task.after, task.at);
      }
    }
  }

  /** After every prefix of the run, the acknowledged commands are those handed out followed by the durable queues. */
  ghost predicate AlwaysAccounted(placement: Placement, steps: seq<Step>) {
    forall k | 0 <= k <= |steps| :: LedgerOk(Durable(After(placement, steps[..k]).lease), After(placement, steps[..k]).ledger)
  }

  ghost predicate EveryCommitCurrent(placement: Placement, steps: seq<Step>) {
    forall k | 0 <= k < |steps| :: FoundCurrent(After(placement, steps[..k]), steps[k])
  }

  /** Once there is a durable fleet, no detached registry acknowledges or hands out a command. */
  ghost predicate EveryPromiseBacked(placement: Placement, steps: seq<Step>) {
    forall k | 0 <= k < |steps| :: !Unbacked(After(placement, steps[..k]), placement, steps[k])
  }

  /**
    * In every run, with no discipline: no acknowledged command is lost or handed out twice or out of order at any
    * point if and only if every write that committed found its writer's fleet current and no registry acknowledged
    * or handed out commands while detached.
    */
  lemma {:induction false} CommandsSurviveIff(placement: Placement, steps: seq<Step>)
    ensures AlwaysAccounted(placement, steps) <==> EveryCommitCurrent(placement, steps) && EveryPromiseBacked(placement, steps)
  {
    hide FoundCurrent, Unbacked, LedgerOk, Next;
    if steps == [] {
      StartsAccounted(placement);
    } else {
      var n := |steps| - 1;
      var before := steps[..n];
      CommandsSurviveIff(placement, before);
      AccountedPrefix(placement, steps);
      CurrentPrefix(placement, steps);
      if AlwaysAccounted(placement, before) {
        var s := After(placement, before);
        assert before[..n] == before;
        RunKeepsBase(placement, before);
        LeaseInvAlongRun(placement, before);
        StepAccountsIff(s, placement, Records(placement, before), L.LastMutations(LeaseSteps(placement, before)), Last(steps));
      }
    }
  }

  lemma StartsAccounted(placement: Placement)
    ensures AlwaysAccounted(placement, []) && EveryCommitCurrent(placement, []) && EveryPromiseBacked(placement, [])
  {
    var none: seq<Step> := [];
    assert none[..0] == none;
  }

  lemma AccountedPrefix(placement: Placement, steps: seq<Step>)
    requires steps != []
    ensures AlwaysAccounted(placement, steps) <==>
            && AlwaysAccounted(placement, steps[..|steps| - 1])
            && LedgerOk(Durable(After(placement, steps).lease), After(placement, steps).ledger)
  {
    hide After, LedgerOk;
    var n := |steps| - 1;
    assert steps[..n + 1] == steps;
    forall k | 0 <= k <= n
      ensures steps[..n][..k] == steps[..k]
    {
    }
  }

  lemma CurrentPrefix(placement: Placement, steps: seq<Step>)
    requires steps != []
    ensures EveryCommitCurrent(placement, steps) <==>
            && EveryCommitCurrent(placement, steps[..|steps| - 1])
            && FoundCurrent(After(placement, steps[..|steps| - 1]), Last(steps))
    ensures EveryPromiseBacked(placement, steps) <==>
            && EveryPromiseBacked(placement, steps[..|steps| - 1])
            && !Unbacked(After(placement, steps[..|steps| - 1]), placement, Last(steps))
  {
    hide After, FoundCurrent, Unbacked;
    var n := |steps| - 1;
    assert forall k | 0 <= k < n :: steps[..n][..k] == steps[..k] && steps[..n][k] == steps[k];
  }

  /** Writing only in the term of the last attach is one way to stay current. */
  lemma {:induction false} DisciplineIsEnough(placement: Placement, steps: seq<Step>)
    requires Disciplined(placement, steps)
    ensures EveryCommitCurrent(placement, steps) && EveryPromiseBacked(placement, steps)
  {
    hide FoundCurrent, Unbacked, LedgerOk, Next;
    if steps == [] {
      StartsAccounted(placement);
    } else {
      var before := steps[..|steps| - 1];
      DisciplineIsEnough(placement, before);
      CommandsSurviveIff(placement, before);
      AcknowledgedCommandsSurvive(placement, steps);
      AccountedPrefix(placement, steps);
      CommandsSurviveIff(placement, steps);
    }
  }

  /**
    * In every run a new primary that restores the durable fleet has exactly the durable queues, so it has every
    * acknowledged and undelivered command if and only if the durable fleet does.
    */
  lemma NextPrimaryRestoresQueues(placement: Placement, steps: seq<Step>, manager: L.OwnerId, now: int)
    requires var s := After(placement, steps);
             manager != "" && RegistryOf(s, manager).task.None? && Durable(s.lease).Some?
    ensures var s, s' := After(placement, steps), Next(After(placement, steps), placement, AttachRead(manager, now));
            var agents := s'.registries[manager].agents;
            && (forall id :: SameQueue(Durable(s.lease).value, agents, id))
            && (LedgerOk(Durable(s.lease), s.ledger) <==>
                && agents.Keys == s.ledger.Keys
                && forall id | id in s.ledger :: s.ledger[id].acked == s.ledger[id].delivered + agents[id].commands)
  {
    RunKeepsBase(placement, steps);
    var s := After(placement, steps);
    var d := Durable(s.lease).value;
    var agents := Restore(d, placement, now);
    hide After;
    assert agents.Keys == d.Keys;
    assert forall id | id in agents :: agents[id].commands == d[id].commands;
    assert Next(s, placement, AttachRead(manager, now)).registries[manager].agents == agents;
  }

  /** The committed write of a change. */
  predicate CommitsChange(s: System, step: Step, change: Change) {
    && step.Write?
    && RegistryWrite(s.lease, step.op)
    && L.Commits(s.lease, step.op)
    && var reg := RegistryOf(s, s.lease.pending[step.op].manager);
    reg.task.Some? && reg.task.value.change == Some(change)
  }

  ghost predicate LedgerExtends(l: Ledger, l': Ledger) {
    l.acked <= l'.acked && l.delivered <= l'.delivered
  }

  /** Nothing is ever taken back: what was acknowledged or handed out stays so until the Agent re-registers or is removed. */
  lemma LedgerOnlyGrows(placement: Placement, steps: seq<Step>, id: AgentId)
    requires steps != []
    requires id in After(placement, steps[..|steps| - 1]).ledger
    requires forall change | CommitsChange(After(placement, steps[..|steps| - 1]), Last(steps), change) ::
               !(change.Register? && change.id == id) && !(change.Remove? && change.id == id)
    ensures id in After(placement, steps).ledger
    ensures LedgerExtends(After(placement, steps[..|steps| - 1]).ledger[id], After(placement, steps).ledger[id])
  {
    hide Next;
    RunKeepsBase(placement, steps[..|steps| - 1]);
    LedgerGrowsInStep(After(placement, steps[..|steps| - 1]), placement, Last(steps), id);
  }

  lemma LedgerGrowsInStep(s: System, placement: Placement, step: Step, id: AgentId)
    requires id in s.ledger && (Durable(s.lease).None? ==> s.ledger == map[])
    requires forall change | CommitsChange(s, step, change) ::
               !(change.Register? && change.id == id) && !(change.Remove? && change.id == id)
    ensures id in Next(s, placement, step).ledger
    ensures LedgerExtends(s.ledger[id], Next(s, placement, step).ledger[id])
  {
    if step.Write? && RegistryWrite(s.lease, step.op) && L.Commits(s.lease, step.op) {
      var reg := RegistryOf(s, s.lease.pending[step.op].manager);
      if reg.task.Some? && reg.task.value.change.Some? {
        assert CommitsChange(s, step, reg.task.value.change.value);
        PostedGrows(s.ledger, reg.task.value.change.value, reg.agents, id);
      }
    } else if step.Begin? {
      InMemoryGrows(s.ledger, step.change, RegistryOf(s, step.manager).agents, id);
    }
  }

  lemma PostedGrows(ledger: map<AgentId, Ledger>, change: Change, before: Agents, id: AgentId)
    requires id in ledger
    requires !(change.Register? && change.id == id) && !(change.Remove? && change.id == id)
    ensures id in Posted(ledger, change, before)
    ensures LedgerExtends(ledger[id], Posted(ledger, change, before)[id])
  {
  }

  lemma InMemoryGrows(ledger: map<AgentId, Ledger>, change: Change, before: Agents, id: AgentId)
    requires id in ledger
    ensures id in PostedInMemory(ledger, change, before)
    ensures LedgerExtends(ledger[id], PostedInMemory(ledger, change, before)[id])
  {
  }

  /** After its term as primary A is detached, and then acknowledges "c" for X. */
  function DetachedRun(): (r: seq<Step>) {
    FirstTerm() + [Detach("A")] + [Begin("A", Queue("X", Command("c", 0)), 5)]
  }

  /**
    * The acknowledged command is in A's memory alone: it is not in the durable queue of X, no write has committed
    * since, and when A attaches again it is gone.
    */
  lemma DetachedCommandIsLost()
    ensures !EveryPromiseBacked(OPEN, DetachedRun())
    ensures var s := After(OPEN, FirstTerm() + [Detach("A")]); LedgerOk(Durable(s.lease), s.ledger)
    ensures var s := After(OPEN, DetachedRun());
            && s.ledger == map["X" := Ledger([Command("c", 0)], [])]
            && Durable(s.lease).Some? && "X" in Durable(s.lease).value && Durable(s.lease).value["X"].commands == []
            && !LedgerOk(Durable(s.lease), s.ledger)
            && var reg := RegistryOf(Next(s, OPEN, AttachRead("A", 6)), "A");
            "X" in reg.agents && reg.agents["X"].commands == []
  {
    hide After;
    FirstTermEnds();
    var run, step := FirstTerm() + [Detach("A")], Begin("A", Queue("X", Command("c", 0)), 5);
    AfterOneMore(FirstTerm(), Detach("A"));
    AfterOneMore(run, step);
    DetachedQueue(After(OPEN, FirstTerm()), Command("c", 0));
    assert DetachedRun()[..|run|] == run && DetachedRun()[|run|] == step;
  }

  lemma DetachedQueue(s: System, command: Command)
    requires Phase(s, "A", 0, 1, [], Ledger([], []))
    ensures var s1, step := Next(s, OPEN, Detach("A")), Begin("A", Queue("X", command), 5);
            var s2 := Next(s1, OPEN, step);
            && LedgerOk(Durable(s1.lease), s1.ledger) && Unbacked(s1, OPEN, step)
            && s2.lease == s.lease && s2.ledger == map["X" := Ledger([command], [])] && !LedgerOk(Durable(s2.lease), s2.ledger)
            && var reg := RegistryOf(Next(s2, OPEN, AttachRead("A", 6)), "A");
            "X" in reg.agents && reg.agents["X"].commands == []
  {
    RestoresX(Durable(s.lease).value, 6);
    var s2 := Next(Next(s, OPEN, Detach("A")), OPEN, Begin("A", Queue("X", command), 5));
    assert [] + [command] == [command];
    assert s2.ledger["X"].acked != s2.ledger["X"].delivered + Durable(s2.lease).value["X"].commands;
  }
}
