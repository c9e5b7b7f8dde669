/** Any number of regional Managers working on one catalog record, as interleaved read and swap steps under a clock. */
module CatalogRuns {
  import opened Wrappers
  import opened Sequences
  import opened Catalog

  /** An operation between its read and its swap; `now` is the clock reading it was checked against. */
  datatype Pending = Pending(operation: Operation, now: int, seen: Option<Record>, proposal: Record)

  datatype State = State(store: Option<Record>, clock: int, pending: map<nat, Pending>)

  datatype Step =
    | Tick(ms: nat)
    | Read(op: nat, operation: Operation, now: int)
    | Swap(op: nat)

  /** What stays fixed during a run. */
  datatype World = World(policy: Policy, content: Content)

  predicate Commits(s: State, op: nat) {
    op in s.pending && s.store == s.pending[op].seen
  }

  function Next(w: World, s: State, step: Step): (r: State) {
    match step
    case Tick(ms) => s.(clock := s.clock + ms)
    case Read(op, operation, now) =>
      if op in s.pending || now > s.clock then s
      else
        (match Propose(s.store, w.policy, w.content, operation, now)
         case Failure(_) => s
         case Success(proposal) => s.(pending := s.pending[op := Pending(operation, now, s.store, proposal)]))
    case Swap(op) =>
      if op !in s.pending then s
      else
        var done := s.(pending := s.pending - {op});
        if Commits(s, op) then done.(store := Some(s.pending[op].proposal)) else done
  }

  function After(w: World, start: int, steps: seq<Step>): (s: State) {
    if steps == [] then State(None, start, map[]) else Next(w, After(w, start, steps[..|steps| - 1]), Last(steps))
  }

  /** Every record the store has held, in order. */
  function History(w: World, start: int, steps: seq<Step>): (h: seq<Record>) {
    if steps == [] then []
    else
      var before, step := After(w, start, steps[..|steps| - 1]), Last(steps);
      var h := History(w, start, steps[..|steps| - 1]);
      if step.Swap? && Commits(before, step.op) then h + [before.pending[step.op].proposal] else h
  }

  // ---------------------------------------------------------------------------------------------
  // What every step keeps
  // ---------------------------------------------------------------------------------------------

  /** A later record never undoes an earlier one, and a fence names one owner. */
  ghost predicate Later(rec: Record, next: Record) {
    && Advances(rec, next)
    && rec.fence <= next.fence
    && (rec.fence == next.fence ==> next.owner == rec.owner && next.location == rec.location)
  }

  ghost predicate Ordered(h: seq<Record>) {
    forall i, j | 0 <= i < j < |h| :: Later(h[i], h[j])
  }

  ghost predicate PendingOk(w: World, p: Pending, clock: int) {
    p.now <= clock && Propose(p.seen, w.policy, w.content, p.operation, p.now) == Success(p.proposal)
  }

  ghost predicate Inv(w: World, s: State, h: seq<Record>) {
    && s.store == (if h == [] then None else Some(Last(h)))
    && Ordered(h)
    && (forall i | 0 <= i < |h| :: Consistent(h[i], w.content))
    && (forall op | op in s.pending :: PendingOk(w, s.pending[op], s.clock))
  }

  lemma LaterTransitive(a: Record, b: Record, c: Record)
    requires Later(a, b) && Later(b, c)
    ensures Later(a, c)
  {
    forall p | p in a.replicas && a.replicas[p].sequence == c.replicas[p].sequence
      ensures a.replicas[p] == c.replicas[p]
    {
      assert a.replicas[p].sequence <= b.replicas[p].sequence <= c.replicas[p].sequence;
    }
  }

  lemma OrderedExtends(h: seq<Record>, next: Record)
    requires Ordered(h) && (h != [] ==> Later(Last(h), next))
    ensures Ordered(h + [next])
  {
    forall i | 0 <= i < |h| ensures Later(h[i], next) {
      if i < |h| - 1 {
        LaterTransitive(h[i], h[|h| - 1], next);
      }
    }
  }

  lemma CommitKeepsInv(w: World, s: State, h: seq<Record>, op: nat)
    requires Inv(w, s, h) && Commits(s, op)
    ensures Inv(w, Next(w, s, Swap(op)), h + [s.pending[op].proposal])
  {
    var p := s.pending[op];
    assert PendingOk(w, p, s.clock);
    ProposalIsConsistent(p.seen, w.policy, w.content, p.operation, p.now);
    if h != [] {
      ProposalAdvances(Last(h), w.policy, w.content, p.operation, p.now);
    }
    OrderedExtends(h, p.proposal);
  }

  lemma OtherStepKeepsInv(w: World, s: State, h: seq<Record>, step: Step)
    requires Inv(w, s, h) && !(step.Swap? && Commits(s, step.op))
    ensures Inv(w, Next(w, s, step), h)
  {
    var s' := Next(w, s, step);
    forall op | op in s'.pending ensures PendingOk(w, s'.pending[op], s'.clock) {
      assert op in s.pending ==> PendingOk(w, s.pending[op], s.clock);
    }
  }

  lemma {:induction false} RunKeepsInv(w: World, start: int, steps: seq<Step>)
    ensures Inv(w, After(w, start, steps), History(w, start, steps))
  {
    if steps != [] {
      var before, step := steps[..|steps| - 1], Last(steps);
      RunKeepsInv(w, start, before);
      var s, h := After(w, start, before), History(w, start, before);
      if step.Swap? && Commits(s, step.op) {
        CommitKeepsInv(w, s, h, step.op);
      } else {
        OtherStepKeepsInv(w, s, h, step);
      }
    }
  }

  // ---------------------------------------------------------------------------------------------
  // What holds of every run
  // ---------------------------------------------------------------------------------------------

  /** In every record ever durable, replicas at the same sequence hold the same generation. */
  lemma ReplicasAgree(w: World, start: int, steps: seq<Step>, i: nat, p: Profile, q: Profile)
    requires i < |History(w, start, steps)|
    requires var rec := History(w, start, steps)[i];
             p in rec.replicas && q in rec.replicas && rec.replicas[p].sequence == rec.replicas[q].sequence
    ensures var rec := History(w, start, steps)[i];
            && rec.replicas[p].sequence in rec.generations
            && rec.generations[rec.replicas[p].sequence] == IdentityOf(rec.replicas[p])
            && rec.replicas[q] == Retarget(rec.replicas[p], q)
  {
    RunKeepsInv(w, start, steps);
    SameSequenceSameGeneration(History(w, start, steps)[i], w.content, p, q);
  }

  /** Generations are write-once and replica sequences never go backwards, between any two durable records. */
  lemma NothingGoesBackwards(w: World, start: int, steps: seq<Step>, i: nat, j: nat)
    requires i < j < |History(w, start, steps)|
    ensures Advances(History(w, start, steps)[i], History(w, start, steps)[j])
    ensures History(w, start, steps)[i].fence <= History(w, start, steps)[j].fence
  {
    RunKeepsInv(w, start, steps);
    assert Later(History(w, start, steps)[i], History(w, start, steps)[j]);
  }

  /** One fence, one owner and location. */
  lemma FenceNamesOwner(w: World, start: int, steps: seq<Step>, i: nat, j: nat)
    requires i < j < |History(w, start, steps)|
    requires History(w, start, steps)[i].fence == History(w, start, steps)[j].fence
    ensures History(w, start, steps)[i].owner == History(w, start, steps)[j].owner
    ensures History(w, start, steps)[i].location == History(w, start, steps)[j].location
  {
    RunKeepsInv(w, start, steps);
    assert Later(History(w, start, steps)[i], History(w, start, steps)[j]);
  }

  /**
    * Whatever commits was entitled to, against the very record it replaces: a creation over nothing, a handover by the
    * live owner of that record, a takeover after its expiry, a renewal or advertisement in its current term.  It writes
    * what such an operation writes, at the clock reading it was checked against.
    */
  ghost predicate Entitled(w: World, seen: Option<Record>, p: Pending, clock: int) {
    p.now <= clock && Permitted(seen, w.policy, w.content, p.operation, p.now) && Writes(seen, p.operation, p.now, p.proposal)
  }

  lemma CommitsAreEntitled(w: World, start: int, steps: seq<Step>, op: nat)
    requires Commits(After(w, start, steps), op)
    ensures var s := After(w, start, steps); Entitled(w, s.store, s.pending[op], s.clock)
  {
    hide Propose;
    RunKeepsInv(w, start, steps);
    var p := After(w, start, steps).pending[op];
    assert PendingOk(w, p, After(w, start, steps).clock);
    ProposeMeans(p.seen, w.policy, w.content, p.operation, p.now);
  }

  /** A permitted operation is put in flight, and commits if the record stays as it is. */
  lemma PermittedCommits(w: World, s: State, op: nat, operation: Operation, now: int)
    requires op !in s.pending && now <= s.clock && Permitted(s.store, w.policy, w.content, operation, now)
    ensures var read := Next(w, s, Read(op, operation, now));
            var after := Next(w, read, Swap(op));
            && op in read.pending && Commits(read, op)
            && after.store.Some? && Writes(s.store, operation, now, after.store.value)
            && after.clock == s.clock && after.pending == s.pending
  {
    hide Propose;
    ProposeMeans(s.store, w.policy, w.content, operation, now);
    assert s.pending[op := Next(w, s, Read(op, operation, now)).pending[op]] - {op} == s.pending;
  }

  /** An advertisement, renewal or handover that was checked against a fence that is not the newest never commits. */
  lemma OlderFenceNeverCommits(w: World, start: int, steps: seq<Step>, op: nat, k: nat)
    requires op in After(w, start, steps).pending && k < |History(w, start, steps)|
    requires var operation := After(w, start, steps).pending[op].operation;
             (operation.Advertise? || operation.Renew? || operation.Handover?) && operation.fence < History(w, start, steps)[k].fence
    ensures !Commits(After(w, start, steps), op)
    ensures Next(w, After(w, start, steps), Swap(op)).store == After(w, start, steps).store
  {
    RunKeepsInv(w, start, steps);
    var s, h := After(w, start, steps), History(w, start, steps);
    assert k < |h| - 1 ==> Later(h[k], h[|h| - 1]);
    if Commits(s, op) {
      CommitsAreEntitled(w, start, steps, op);
    }
  }
}
