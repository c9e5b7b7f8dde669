/**
  * TTL leader election over one compare-and-swap record that also carries the Managers' durable state.
  *
  * The first part is what one attempt of each operation proposes to write.  The second part runs any
  * number of Managers, each with any number of operations in flight, as interleaved read, swap and
  * apply steps.
  */
module Lease {
  import opened Wrappers
  import opened Sequences

  type OwnerId = string
  type Name = string

  /** The lease record; an empty owner marks a released lease. */
  datatype Record<V> = Record(owner: OwnerId, renewMs: int, ttlMs: int, fence: nat, state: map<Name, V>)

  predicate Expired<V>(rec: Record<V>, now: int) {
    now - rec.renewMs > rec.ttlMs
  }

  predicate LiveOwner<V>(rec: Record<V>, self: OwnerId, now: int) {
    rec.owner == self && !Expired(rec, now)
  }

  /** What `acquire_or_renew` writes over the record it read, or None to stand by. */
  function AcquireProposal<V>(seen: Option<Record<V>>, self: OwnerId, ttl: int, now: int): (r: Option<Record<V>>) {
    match seen
    case None => Some(Record(self, now, ttl, 1, map[]))
    case Some(rec) =>
      if rec.owner == "" || Expired(rec, now) || LiveOwner(rec, self, now) then
        Some(Record(self, now, ttl, if LiveOwner(rec, self, now) then rec.fence else rec.fence + 1, rec.state))
      else None
  }

  /** What `mutate_state` writes in term `fence`, or None when the term is stale. */
  function MutateProposal<V>(seen: Option<Record<V>>, self: OwnerId, fence: nat, name: Name, value: V, now: int)
    : (r: Option<Record<V>>)
  {
    match seen
    case None => None
    case Some(rec) =>
      if LiveOwner(rec, self, now) && rec.fence == fence then Some(rec.(state := rec.state[name := value])) else None
  }

  /** What `release` writes in term `fence`, or None when the lease is not held. */
  function ReleaseProposal<V>(seen: Option<Record<V>>, self: OwnerId, fence: nat, ttl: int): (r: Option<Record<V>>) {
    match seen
    case None => None
    case Some(rec) =>
      if rec.owner == self && rec.fence == fence then Some(Record("", 0, ttl, rec.fence, rec.state)) else None
  }

  // ---------------------------------------------------------------------------------------------
  // Any number of Managers, any interleaving
  // ---------------------------------------------------------------------------------------------

  datatype Operation<V> = Acquire(ttl: int) | Mutate(name: Name, value: V) | Release(ttl: int)

  datatype Local = Local(isLeader: bool, fence: nat)

  /** An operation between its read, at clock reading `at`, and its swap, or between a won swap and the update of the local fields. */
  datatype Pending<V> =
    | InFlight(manager: OwnerId, operation: Operation<V>, at: int, seen: Option<Record<V>>, proposal: Record<V>)
    | Won(manager: OwnerId, fence: nat)

  datatype State<V> = State(
    store: Option<Record<V>>,
    locals: map<OwnerId, Local>,
    pending: map<nat, Pending<V>>)

  datatype Step<V> =
    | Read(op: nat, manager: OwnerId, operation: Operation<V>, now: int)  // read the record and decide
    | Swap(op: nat)                                                       // compare-and-swap the proposal
    | Apply(op: nat)                                                      // take over the won term locally
    | Lose(manager: OwnerId)                                              // a failed validation or a store error

  function LocalOf<V>(s: State<V>, manager: OwnerId): (l: Local) {
    if manager in s.locals then s.locals[manager] else Local(false, 0)
  }

  function Lost<V>(s: State<V>, manager: OwnerId): (r: State<V>) {
    s.(locals := s.locals[manager := Local(false, 0)])
  }

  function Proposal<V>(s: State<V>, manager: OwnerId, operation: Operation<V>, now: int): (r: Option<Record<V>>) {
    match operation
    case Acquire(ttl) => AcquireProposal(s.store, manager, ttl, now)
    case Mutate(name, value) => MutateProposal(s.store, manager, LocalOf(s, manager).fence, name, value, now)
    case Release(ttl) => ReleaseProposal(s.store, manager, LocalOf(s, manager).fence, ttl)
  }

  /** Whether the swap of `op` would find the record it read. */
  predicate Commits<V(==)>(s: State<V>, op: nat) {
    op in s.pending && s.pending[op].InFlight? && s.store == s.pending[op].seen
  }

  function Next<V(==)>(s: State<V>, step: Step<V>): (r: State<V>) {
    match step
    case Read(op, manager, operation, now) =>
      if op in s.pending || manager == "" then s
      else
        (match Proposal(s, manager, operation, now)
         case None => Lost(s, manager)
         case Some(proposal) => s.(pending := s.pending[op := InFlight(manager, operation, now, s.store, proposal)]))
    case Swap(op) =>
      if op !in s.pending || s.pending[op].Won? then s
      else
        var InFlight(manager, operation, _, seen, proposal) := s.pending[op];
        var done := s.(pending := s.pending - {op});
        if s.store != seen then (if operation.Release? then Lost(done, manager) else done)
        else
          (match operation
           case Acquire(_) => s.(store := Some(proposal), pending := s.pending[op := Won(manager, proposal.fence)])
           case Mutate(_, _) => done.(store := Some(proposal))
           case Release(_) => Lost(done, manager).(store := Some(proposal)))
    case Apply(op) =>
      if op !in s.pending || s.pending[op].InFlight? then s
      else
        var Won(manager, fence) := s.pending[op];
        s.(locals := s.locals[manager := Local(true, fence)], pending := s.pending - {op})
    case Lose(manager) => Lost(s, manager)
  }

  function Init<V>(): (s: State<V>) {
    State(None, map[], map[])
  }

  /** The state after a run; every interleaving of the Managers is some sequence of steps. */
  function After<V(==)>(steps: seq<Step<V>>): (s: State<V>) {
    if steps == [] then Init() else Next(After(steps[..|steps| - 1]), Last(steps))
  }

  /** The records after one step. */
  function Extended<V(==)>(s: State<V>, h: seq<Record<V>>, step: Step<V>): seq<Record<V>> {
    if step.Swap? && Commits(s, step.op) then h + [s.pending[step.op].proposal] else h
  }

  /** Every record the store has held, in order. */
  function History<V(==)>(steps: seq<Step<V>>): (h: seq<Record<V>>) {
    if steps == [] then []
    else Extended(After(steps[..|steps| - 1]), History(steps[..|steps| - 1]), Last(steps))
  }

  /** The value of the last successful `mutate_state` on each name. */
  function LastMutations<V(==)>(steps: seq<Step<V>>): (m: map<Name, V>) {
    if steps == [] then map[]
    else
      var before, step := After(steps[..|steps| - 1]), Last(steps);
      var m := LastMutations(steps[..|steps| - 1]);
      if step.Swap? && Commits(before, step.op) && before.pending[step.op].operation.Mutate? then
        var Mutate(name, value) := before.pending[step.op].operation;
        m[name := value]
      else m
  }

  // ---------------------------------------------------------------------------------------------
  // What every step keeps
  // ---------------------------------------------------------------------------------------------

  /** `next` may follow `last`: the fence never falls, and within one fence the owner only stays or is cleared. */
  ghost predicate Follows<V>(last: Record<V>, next: Record<V>) {
    && last.fence <= next.fence
    && (last.fence == next.fence ==> next.owner == last.owner || next.owner == "")
  }

  ghost predicate Ordered<V>(h: seq<Record<V>>) {
    forall i, j | 0 <= i < j < |h| :: Follows(h[i], h[j])
  }

  ghost predicate Held<V>(h: seq<Record<V>>, manager: OwnerId, fence: nat) {
    exists i | 0 <= i < |h| :: h[i].owner == manager && h[i].fence == fence
  }

  /**
    * `next` is what `self` may write over `seen` to lead for `ttl` from `now` on: a first lease, a renewal of its own
    * live lease in the same term, or a new term over a lease that was released or has run out.
    */
  ghost predicate Acquired<V>(seen: Option<Record<V>>, next: Record<V>, self: OwnerId, ttl: int, now: int) {
    && next.owner == self && next.renewMs == now && next.ttlMs == ttl
    && match seen
       case None => next.fence == 1 && next.state == map[]
       case Some(rec) =>
         && next.state == rec.state
         && if rec.owner == self && now <= rec.renewMs + rec.ttlMs then next.fence == rec.fence
            else (rec.owner == "" || now > rec.renewMs + rec.ttlMs) && next.fence == rec.fence + 1
  }

  /** `self` holds the lease in term `fence` at `now`. */
  ghost predicate Holds<V>(seen: Option<Record<V>>, self: OwnerId, fence: nat, now: int) {
    seen.Some? && seen.value.owner == self && seen.value.fence == fence && now <= seen.value.renewMs + seen.value.ttlMs
  }

  /** Somebody else holds the lease at `now`. */
  ghost predicate Blocks<V>(seen: Option<Record<V>>, self: OwnerId, now: int) {
    seen.Some? && seen.value.owner != "" && seen.value.owner != self && now <= seen.value.renewMs + seen.value.ttlMs
  }

  /** `next` is the record of a Manager that gave the lease up. */
  ghost predicate Released<V>(rec: Record<V>, next: Record<V>, ttl: int) {
    next == Record("", 0, ttl, rec.fence, rec.state)
  }

  /** What an in-flight proposal does to the record it read. */
  ghost predicate Sound<V>(p: Pending<V>)
    requires p.InFlight?
  {
    && p.manager != ""
    && p.proposal.fence >= 1
    && match p.operation
       case Acquire(ttl) => Acquired(p.seen, p.proposal, p.manager, ttl, p.at)
       case Mutate(name, value) =>
         && Holds(p.seen, p.manager, p.proposal.fence, p.at)
         && p.proposal == p.seen.value.(state := p.seen.value.state[name := value])
       case Release(ttl) =>
         p.seen.Some? && p.seen.value.owner == p.manager && Released(p.seen.value, p.proposal, ttl)
  }

  /** Records, operations in flight and local beliefs agree with the records the store has held. */
  ghost predicate Inv<V>(s: State<V>, h: seq<Record<V>>, m: map<Name, V>) {
    && Ordered(h)
    && (forall i | 0 <= i < |h| :: h[i].fence >= 1)
    && s.store == (if h == [] then None else Some(Last(h)))
    && m == (if h == [] then map[] else Last(h).state)
    && (forall op | op in s.pending :: PendingOk(s.pending[op], h))
    && (forall manager | manager in s.locals :: LocalOk(s.locals[manager], manager, h))
  }

  ghost predicate PendingOk<V>(p: Pending<V>, h: seq<Record<V>>) {
    && p.manager != ""
    && if p.InFlight? then Sound(p) else Held(h, p.manager, p.fence)
  }

  ghost predicate LocalOk<V>(l: Local, manager: OwnerId, h: seq<Record<V>>) {
    if l.isLeader then manager != "" && Held(h, manager, l.fence) else l.fence == 0
  }

  lemma HeldStays<V>(h: seq<Record<V>>, rec: Record<V>, manager: OwnerId, fence: nat)
    ensures Held(h, manager, fence) ==> Held(h + [rec], manager, fence)
    ensures Held(h + [rec], rec.owner, rec.fence)
  {
    assert (h + [rec])[|h|] == rec;
    if Held(h, manager, fence) {
      var i :| 0 <= i < |h| && h[i].owner == manager && h[i].fence == fence;
      assert (h + [rec])[i] == h[i];
    }
  }

  lemma OrderedExtends<V>(h: seq<Record<V>>, rec: Record<V>)
    requires Ordered(h) && (h != [] ==> Follows(Last(h), rec))
    ensures Ordered(h + [rec])
  {
    forall i | 0 <= i < |h| ensures Follows(h[i], rec) {
      assert i < |h| - 1 ==> Follows(h[i], h[|h| - 1]);
    }
  }

  /** A proposal made from the current record is sound. */
  lemma ReadIsSound<V>(s: State<V>, h: seq<Record<V>>, m: map<Name, V>, manager: OwnerId, operation: Operation<V>, now: int)
    requires Inv(s, h, m) && manager != ""
    requires Proposal(s, manager, operation, now).Some?
    ensures Sound(InFlight(manager, operation, now, s.store, Proposal(s, manager, operation, now).value))
  {
  }

  lemma SwapKeepsInv<V>(s: State<V>, h: seq<Record<V>>, m: map<Name, V>, op: nat)
    requires Inv(s, h, m) && Commits(s, op)
    ensures var p := s.pending[op];
            Inv(Next(s, Swap(op)), h + [p.proposal],
                if p.operation.Mutate? then m[p.operation.name := p.operation.value] else m)
  {
    var p := s.pending[op];
    assert PendingOk(p, h);
    OrderedExtends(h, p.proposal);
    forall manager, fence ensures Held(h, manager, fence) ==> Held(h + [p.proposal], manager, fence) {
      HeldStays(h, p.proposal, manager, fence);
    }
    HeldStays(h, p.proposal, p.manager, p.proposal.fence);
  }

  lemma OtherStepsKeepInv<V>(s: State<V>, h: seq<Record<V>>, m: map<Name, V>, step: Step<V>)
    requires Inv(s, h, m) && !(step.Swap? && Commits(s, step.op))
    ensures Inv(Next(s, step), h, m)
  {
    match step
    case Read(op, manager, operation, now) =>
      if op !in s.pending && manager != "" && Proposal(s, manager, operation, now).Some? {
        ReadIsSound(s, h, m, manager, operation, now);
      }
    case Swap(op) =>
    case Apply(op) =>
      if op in s.pending {
        assert PendingOk(s.pending[op], h);
      }
    case Lose(manager) =>
  }

  lemma {:induction false} RunKeepsInv<V>(steps: seq<Step<V>>)
    ensures Inv(After(steps), History(steps), LastMutations(steps))
  {
    if steps != [] {
      var before, step := steps[..|steps| - 1], Last(steps);
      RunKeepsInv(before);
      if step.Swap? && Commits(After(before), step.op) {
        SwapKeepsInv(After(before), History(before), LastMutations(before), step.op);
      } else {
        OtherStepsKeepInv(After(before), History(before), LastMutations(before), step);
      }
    }
  }

  // ---------------------------------------------------------------------------------------------
  // What holds of every run
  // ---------------------------------------------------------------------------------------------

  function Fence<V>(s: State<V>): (f: nat) {
    if s.store.None? then 0 else s.store.value.fence
  }

  lemma {:induction false} HistoryGrows<V>(steps: seq<Step<V>>, k: nat)
    requires k <= |steps|
    ensures History(steps[..k]) <= History(steps)
  {
    if k < |steps| {
      HistoryGrows(steps[..|steps| - 1], k);
      assert steps[..|steps| - 1][..k] == steps[..k];
    } else {
      assert steps[..k] == steps;
    }
  }

  ghost function LastFence<V>(h: seq<Record<V>>): nat {
    if h == [] then 0 else Last(h).fence
  }

  lemma LastFenceIsHighest<V>(h: seq<Record<V>>, k: nat)
    requires Ordered(h) && k < |h|
    ensures h[k].fence <= LastFence(h)
  {
    assert k < |h| - 1 ==> Follows(h[k], h[|h| - 1]);
  }

  /** The durable fence never decreases. */
  lemma FenceNeverDecreases<V>(steps: seq<Step<V>>, k: nat)
    requires k <= |steps|
    ensures Fence(After(steps[..k])) <= Fence(After(steps))
  {
    hide After, History;
    var early, all := History(steps[..k]), History(steps);
    assert Fence(After(steps)) == LastFence(all) && Ordered(all) by { RunKeepsInv(steps); }
    assert Fence(After(steps[..k])) == LastFence(early) by { RunKeepsInv(steps[..k]); }
    HistoryGrows(steps, k);
    if early != [] {
      LastFenceIsHighest(all, |early| - 1);
    }
  }

  /** Each fence value is ever held by at most one owner. */
  lemma OneOwnerPerFence<V>(steps: seq<Step<V>>, i: nat, j: nat)
    requires i < |History(steps)| && j < |History(steps)|
    requires History(steps)[i].fence == History(steps)[j].fence
    requires History(steps)[i].owner != "" && History(steps)[j].owner != ""
    ensures History(steps)[i].owner == History(steps)[j].owner
  {
    RunKeepsInv(steps);
    var h := History(steps);
    if i < j {
      assert Follows(h[i], h[j]);
    } else if j < i {
      assert Follows(h[j], h[i]);
    }
  }

  /** At most one Manager believes to lead any given term, and its belief was once the durable record. */
  lemma OneLeaderPerTerm<V>(steps: seq<Step<V>>, a: OwnerId, b: OwnerId)
    requires LocalOf(After(steps), a).isLeader && LocalOf(After(steps), b).isLeader
    requires LocalOf(After(steps), a).fence == LocalOf(After(steps), b).fence
    ensures a == b
  {
    RunKeepsInv(steps);
    var s, h := After(steps), History(steps);
    var fence := LocalOf(s, a).fence;
    assert LocalOk(s.locals[a], a, h) && LocalOk(s.locals[b], b, h);
    var i :| 0 <= i < |h| && h[i].owner == a && h[i].fence == fence;
    var j :| 0 <= j < |h| && h[j].owner == b && h[j].fence == fence;
    OneOwnerPerFence(steps, i, j);
  }

  /**
    * A mutation or release that commits does so while the durable record still names its Manager and
    * the term it was checked against, and no newer term has ever been written: a Manager whose term
    * was superseded never commits.
    */
  lemma CommitHoldsNewestTerm<V>(steps: seq<Step<V>>, op: nat)
    requires Commits(After(steps), op) && !After(steps).pending[op].operation.Acquire?
    ensures var s := After(steps);
            && s.store.Some?
            && s.store.value.owner == s.pending[op].manager
            && s.store.value.fence == s.pending[op].proposal.fence
    ensures forall k | 0 <= k < |History(steps)| ::
              History(steps)[k].fence <= After(steps).pending[op].proposal.fence
  {
    var s, h := After(steps), History(steps);
    assert Ordered(h) && PendingOk(s.pending[op], h) && s.store == (if h == [] then None else Some(Last(h))) by {
      RunKeepsInv(steps);
    }
    forall k | 0 <= k < |h| ensures h[k].fence <= s.pending[op].proposal.fence {
      LastFenceIsHighest(h, k);
    }
  }

  /** The term a mutation or release is checked against is the one its Manager believes to hold when it reads. */
  lemma ReadsCheckOwnTerm<V>(s: State<V>, op: nat, manager: OwnerId, operation: Operation<V>, now: int)
    requires op !in s.pending && !operation.Acquire?
    requires op in Next(s, Read(op, manager, operation, now)).pending
    ensures var p := Next(s, Read(op, manager, operation, now)).pending[op];
            p.InFlight? && p.manager == manager && p.operation == operation && p.at == now && p.seen == s.store
            && p.proposal.fence == LocalOf(s, manager).fence
  {
  }

  /** Where an operation in flight was read, and the term its Manager believed to hold then. */
  lemma {:induction false} InFlightWasRead<V>(steps: seq<Step<V>>, op: nat) returns (k: nat)
    requires var s := After(steps); op in s.pending && s.pending[op].InFlight? && !s.pending[op].operation.Acquire?
    ensures k < |steps|
    ensures var p := After(steps).pending[op];
            && steps[k].Read? && steps[k].op == op && steps[k].manager == p.manager && steps[k].operation == p.operation
            && p.at == steps[k].now
            && p.seen == After(steps[..k]).store
            && p.proposal.fence == LocalOf(After(steps[..k]), p.manager).fence
  {
    var n := |steps| - 1;
    var before, step := After(steps[..n]), Last(steps);
    if op in before.pending && before.pending[op] == After(steps).pending[op] {
      k := InFlightWasRead(steps[..n], op);
      assert steps[..n][..k] == steps[..k];
    } else {
      k := n;
      ReadsCheckOwnTerm(before, op, step.manager, step.operation, step.now);
    }
  }

  /**
    * In every run, a mutation or release that commits carries the term its Manager held when it read, the record is
    * still the one it read then, and no newer term has ever been written.
    */
  lemma CommitsInOwnNewestTerm<V>(steps: seq<Step<V>>, op: nat) returns (k: nat)
    requires Commits(After(steps), op) && !After(steps).pending[op].operation.Acquire?
    ensures var s := After(steps);
            var p := s.pending[op];
            && k < |steps| && steps[k].Read? && steps[k].op == op && steps[k].manager == p.manager
            && p.proposal.fence == LocalOf(After(steps[..k]), p.manager).fence
            && s.store == After(steps[..k]).store && s.store.Some?
            && s.store.value.owner == p.manager && s.store.value.fence == p.proposal.fence
    ensures forall i | 0 <= i < |History(steps)| :: History(steps)[i].fence <= LocalOf(After(steps[..k]), steps[k].manager).fence
  {
    hide After, History;
    k := InFlightWasRead(steps, op);
    CommitHoldsNewestTerm(steps, op);
  }

  /**
    * How one durable record may follow another: the fence rises, by one, exactly when a Manager acquires a lease
    * that was released or had run out when it looked; otherwise the owner gives the lease up, renews it in time, or
    * keeps it as it is.
    */
  ghost predicate Handed<V>(last: Record<V>, next: Record<V>) {
    if next.fence == last.fence then
      || next.owner == ""
      || (next.owner == last.owner && next.renewMs == last.renewMs && next.ttlMs == last.ttlMs)
      || (next.owner == last.owner && next.renewMs <= last.renewMs + last.ttlMs && next.state == last.state)
    else
      next.fence == last.fence + 1 && next.owner != "" && (last.owner == "" || next.renewMs > last.renewMs + last.ttlMs)
  }

  ghost predicate HandedInv<V>(s: State<V>, h: seq<Record<V>>) {
    && s.store == (if h == [] then None else Some(Last(h)))
    && (forall op | op in s.pending && s.pending[op].InFlight? && s.pending[op].seen.Some? ::
          Handed(s.pending[op].seen.value, s.pending[op].proposal))
    && (forall i | 0 < i < |h| :: Handed(h[i - 1], h[i]))
  }

  lemma ProposalIsHanded<V>(s: State<V>, manager: OwnerId, operation: Operation<V>, now: int)
    requires manager != "" && s.store.Some? && Proposal(s, manager, operation, now).Some?
    ensures Handed(s.store.value, Proposal(s, manager, operation, now).value)
  {
  }

  lemma HandedStep<V>(s: State<V>, h: seq<Record<V>>, step: Step<V>)
    requires HandedInv(s, h)
    ensures HandedInv(Next(s, step), Extended(s, h, step))
  {
    if step.Read? && s.store.Some? && step.manager != "" && Proposal(s, step.manager, step.operation, step.now).Some? {
      ProposalIsHanded(s, step.manager, step.operation, step.now);
    }
    hide Handed, Proposal;
    if step.Swap? && Commits(s, step.op) {
      var next := h + [s.pending[step.op].proposal];
      forall i | 0 < i < |next|
        ensures Handed(next[i - 1], next[i])
      {
        assert i == |h| ==> s.pending[step.op].seen == Some(Last(h));
      }
    }
  }

  /** In every run, a live lease is never taken from its owner, and each term begins one fence above the last. */
  lemma {:induction false} TermsChangeHands<V>(steps: seq<Step<V>>)
    ensures HandedInv(After(steps), History(steps))
  {
    if steps != [] {
      hide HandedInv, Next;
      TermsChangeHands(steps[..|steps| - 1]);
      HandedStep(After(steps[..|steps| - 1]), History(steps[..|steps| - 1]), Last(steps));
    }
  }

  /** Since step `k` nobody has acquired, renewed or released the lease. */
  ghost predicate Undisturbed<V>(steps: seq<Step<V>>, k: nat) {
    forall i | k < i < |steps| && steps[i].Swap? && Commits(After(steps[..i]), steps[i].op) ::
      After(steps[..i]).pending[steps[i].op].operation.Mutate?
  }

  /** The swap of step `k` acquired or renewed the lease. */
  ghost predicate Acquires<V>(steps: seq<Step<V>>, k: nat) {
    && k < |steps| && steps[k].Swap? && Commits(After(steps[..k]), steps[k].op)
    && After(steps[..k]).pending[steps[k].op].operation.Acquire?
  }

  /** Mutations leave owner, term and times as they are. */
  lemma {:induction false} StaysRenewed<V>(steps: seq<Step<V>>, k: nat)
    requires Acquires(steps, k) && Undisturbed(steps, k)
    ensures var s, mine := After(steps), After(steps[..k]).pending[steps[k].op].proposal;
            s.store.Some? && s.store.value.(state := map[]) == mine.(state := map[])
    decreases |steps|
  {
    var n := |steps| - 1;
    assert steps[..n][..k] == steps[..k];
    if k < n {
      forall i | k < i < n
        ensures steps[..n][..i] == steps[..i]
      {
      }
      StaysRenewed(steps[..n], k);
      RunKeepsInv(steps[..n]);
      var s, step := After(steps[..n]), steps[n];
      if step.Swap? && Commits(s, step.op) {
        assert PendingOk(s.pending[step.op], History(steps[..n]));
      }
    }
  }

  /**
    * In every run, a lease acquired or renewed at `at` for `ttl` protects its owner: the next Manager to acquire it,
    * if it is another one, read a clock above `at + ttl` and begins a new term; the owner itself stays in its term
    * until then.
    */
  lemma RenewalProtects<V>(steps: seq<Step<V>>, k: nat, op: nat)
    requires Acquires(steps, k) && Undisturbed(steps, k)
    requires Commits(After(steps), op) && After(steps).pending[op].operation.Acquire?
    ensures var mine, next := After(steps[..k]).pending[steps[k].op], After(steps).pending[op];
            && (next.manager != mine.manager ==>
                  next.at > mine.at + mine.operation.ttl && next.proposal.fence == mine.proposal.fence + 1)
            && (next.manager == mine.manager ==>
                  next.proposal.fence == mine.proposal.fence + (if next.at <= mine.at + mine.operation.ttl then 0 else 1))
  {
    StaysRenewed(steps, k);
    RunKeepsInv(steps);
    RunKeepsInv(steps[..k]);
    assert PendingOk(After(steps).pending[op], History(steps));
    assert PendingOk(After(steps[..k]).pending[steps[k].op], History(steps[..k]));
  }

  /** No takeover, renewal or release loses an update: the durable state is that of the last mutations. */
  lemma NoUpdateIsLost<V>(steps: seq<Step<V>>)
    ensures (if After(steps).store.None? then map[] else After(steps).store.value.state) == LastMutations(steps)
  {
    RunKeepsInv(steps);
  }

  // ---------------------------------------------------------------------------------------------
  // The lease object
  // ---------------------------------------------------------------------------------------------

  /** The shared record, with the store's atomic compare-and-swap. */
  class Store<V(==)> {
    var record: Option<Record<V>>

    constructor (record: Option<Record<V>>)
      ensures this.record == record
    {
      this.record := record;
    }

    method CompareAndSwap(expected: Option<Record<V>>, data: Record<V>) returns (swapped: bool)
      modifies this
      ensures swapped == (old(record) == expected)
      ensures record == if swapped then Some(data) else old(record)
    {
      swapped := record == expected;
      if swapped {
        record := Some(data);
      }
    }

    /** Another Manager writes between this one's read and swap; None leaves the record alone. */
    method Interfere(write: Option<Record<V>>)
      modifies this
      ensures record == if write.Some? then write else old(record)
    {
      if write.Some? {
        record := write;
      }
    }
  }

  datatype LeaseError = StaleLeader | Contention

  /** The attempts of `acquire_or_renew`, while `others` writes between each read and swap. */
  function AcquireRun<V(==)>(record: Option<Record<V>>, others: seq<Option<Record<V>>>, self: OwnerId, ttl: int, now: int)
    : (r: (Option<Record<V>>, bool))
    decreases others
  {
    if others == [] then (record, false)
    else
      match AcquireProposal(record, self, ttl, now)
      case None => (record, false)
      case Some(proposal) =>
        if others[0].None? || others[0] == record then (Some(proposal), true)
        else AcquireRun(others[0], others[1..], self, ttl, now)
  }

  /** The attempts of `mutate_state`. */
  function MutateRun<V(==)>(record: Option<Record<V>>, others: seq<Option<Record<V>>>, self: OwnerId, fence: nat,
                       name: Name, value: V, now: int)
    : (r: (Option<Record<V>>, Result<nat, LeaseError>))
    decreases others
  {
    if others == [] then (record, Failure(Contention))
    else
      match MutateProposal(record, self, fence, name, value, now)
      case None => (record, Failure(StaleLeader))
      case Some(proposal) =>
        if others[0].None? || others[0] == record then (Some(proposal), Success(proposal.fence))
        else MutateRun(others[0], others[1..], self, fence, name, value, now)
  }

  /** The record after the others have written, in order; None leaves it alone. */
  function Latest<V>(record: Option<Record<V>>, writes: seq<Option<Record<V>>>): Option<Record<V>>
    decreases writes
  {
    if writes == [] then record
    else Latest(if writes[0].Some? then writes[0] else record, writes[1..])
  }

  lemma LatestFirst<V>(record: Option<Record<V>>, others: seq<Option<Record<V>>>, n: nat)
    requires 1 <= n <= |others|
    ensures Latest(record, others[..n]) == Latest(if others[0].Some? then others[0] else record, others[1..][..n - 1])
  {
    assert others[..n][1..] == others[1..][..n - 1];
  }

  /** Another Manager changed the record between read and swap of attempt `i`. */
  ghost predicate Disturbed<V>(record: Option<Record<V>>, others: seq<Option<Record<V>>>, i: nat)
    requires i < |others|
  {
    others[i].Some? && others[i] != Latest(record, others[..i])
  }

  lemma DisturbedLater<V>(record: Option<Record<V>>, others: seq<Option<Record<V>>>, n: nat)
    requires n < |others| && Disturbed(record, others, 0) && forall i | 0 <= i < n :: Disturbed(others[0], others[1..], i)
    ensures forall i | 0 <= i <= n :: Disturbed(record, others, i)
  {
    forall i | 0 < i <= n
      ensures Disturbed(record, others, i)
    {
      LatestFirst(record, others, i);
      assert Disturbed(others[0], others[1..], i - 1);
    }
  }

  /**
    * After `n` attempts, all but a last successful one disturbed, a won lease is acquired over the record that the last
    * write of another Manager left.  A Manager gives up before somebody else's live lease or when the attempts run out,
    * and leaves that record alone.
    */
  lemma {:induction false} AcquireRunExtendsLatest<V>(record: Option<Record<V>>, others: seq<Option<Record<V>>>,
                                                      self: OwnerId, ttl: int, now: int)
    returns (n: nat)
    ensures n <= |others|
    ensures var (after, won) := AcquireRun(record, others, self, ttl, now);
            var base := Latest(record, others[..n]);
            && (won ==> n >= 1 && after.Some? && Acquired(base, after.value, self, ttl, now))
            && (!won ==> after == base && (n == |others| || Blocks(base, self, now)))
            && forall i | 0 <= i < (if won then n - 1 else n) :: Disturbed(record, others, i)
    decreases others
  {
    n := 0;
    if others != [] && AcquireProposal(record, self, ttl, now).Some? {
      if others[0].None? || others[0] == record {
        n := 1;
        LatestFirst(record, others, 1);
      } else {
        var k := AcquireRunExtendsLatest(others[0], others[1..], self, ttl, now);
        n := k + 1;
        LatestFirst(record, others, n);
        DisturbedLater(record, others, if AcquireRun(record, others, self, ttl, now).1 then k - 1 else k);
      }
    }
  }

  /**
    * After `n` attempts, a successful mutation adds its entry to the record that the last write of another Manager
    * left, which is live and of the given term; a failed one leaves that record alone, because it is not or because
    * the attempts ran out.
    */
  lemma {:induction false} MutateRunExtendsLatest<V>(record: Option<Record<V>>, others: seq<Option<Record<V>>>,
                                                     self: OwnerId, fence: nat,
                                                     name: Name, value: V, now: int)
    returns (n: nat)
    ensures n <= |others|
    ensures var (after, r) := MutateRun(record, others, self, fence, name, value, now);
            var base := Latest(record, others[..n]);
            && (r.Success? ==>
                  && n >= 1 && Holds(base, self, fence, now) && r.value == fence
                  && after == Some(base.value.(state := base.value.state[name := value])))
            && (r.Failure? ==>
                  after == base && if r.error.StaleLeader? then !Holds(base, self, fence, now) else n == |others|)
            && forall i | 0 <= i < (if r.Success? then n - 1 else n) :: Disturbed(record, others, i)
    decreases others
  {
    n := 0;
    if others != [] && MutateProposal(record, self, fence, name, value, now).Some? {
      if others[0].None? || others[0] == record {
        n := 1;
        LatestFirst(record, others, 1);
      } else {
        var k := MutateRunExtendsLatest(others[0], others[1..], self, fence, name, value, now);
        n := k + 1;
        LatestFirst(record, others, n);
        DisturbedLater(record, others, if MutateRun(record, others, self, fence, name, value, now).1.Success? then k - 1 else k);
      }
    }
  }

  /**
    * One attempt of the loops above is a read step and a swap step of the protocol: whatever the other
    * Managers did in between, the store ends as the attempt leaves it.
    */
  lemma AttemptIsReadThenSwap<V>(s: State<V>, t: State<V>, op: nat, self: OwnerId, operation: Operation<V>, now: int)
    requires self != "" && op !in s.pending
    requires op in Next(s, Read(op, self, operation, now)).pending && op in t.pending
    requires t.pending[op] == Next(s, Read(op, self, operation, now)).pending[op]
    ensures var other := if t.store == s.store then None else t.store;
            var after := Next(t, Swap(op)).store;
            match operation
            case Acquire(ttl) =>
              t.store.Some? || t.store == s.store ==> after == AcquireRun(s.store, [other], self, ttl, now).0
            case Mutate(name, value) =>
              t.store.Some? || t.store == s.store ==>
                after == MutateRun(s.store, [other], self, LocalOf(s, self).fence, name, value, now).0
            case Release(ttl) =>
              after == if t.store == s.store then ReleaseProposal(s.store, self, LocalOf(s, self).fence, ttl) else t.store
  {
  }

  class LeaderLease<V(==)> {
    const store: Store<V>
    const ownerId: OwnerId
    const ttlMs: int
    var isLeader: bool
    var fence: nat

    constructor (store: Store<V>, ownerId: OwnerId, ttlMs: int)
      requires ownerId != ""
      ensures this.store == store && this.ownerId == ownerId && this.ttlMs == (if ttlMs < 1 then 1 else ttlMs)
      ensures !isLeader && fence == 0
    {
      this.store, this.ownerId, this.ttlMs := store, ownerId, if ttlMs < 1 then 1 else ttlMs;
      isLeader, fence := false, 0;
    }

    /** Four attempts; `others[i]` is what another Manager writes between read and swap of attempt `i`. */
    method AcquireOrRenew(now: int, others: seq<Option<Record<V>>>) returns (won: bool)
      requires |others| == 4
      modifies this, store
      ensures (store.record, won) == AcquireRun(old(store.record), others, ownerId, ttlMs, now)
      ensures isLeader == won
      ensures won ==> store.record.Some? && store.record.value.owner == ownerId
                      && store.record.value.renewMs == now && store.record.value.ttlMs == ttlMs
      ensures if won then store.record.Some? && fence == store.record.value.fence else fence == 0
    {
      var attempt := 0;
      while attempt < 4
        invariant 0 <= attempt <= 4
        invariant AcquireRun(store.record, others[attempt..], ownerId, ttlMs, now)
               == AcquireRun(old(store.record), others, ownerId, ttlMs, now)
      {
        var seen := store.record;
        var proposal := AcquireProposal(seen, ownerId, ttlMs, now);
        if proposal.None? {
          isLeader, fence := false, 0;
          return false;
        }
        store.Interfere(others[attempt]);
        var swapped := store.CompareAndSwap(seen, proposal.value);
        if swapped {
          isLeader, fence := true, proposal.value.fence;
          return true;
        }
        attempt := attempt + 1;
      }
      isLeader, fence := false, 0;
      return false;
    }

    /** The live record of the given term, by default this Manager's, or a stale-leader error that also drops the local term. */
    method Validate(owner: OwnerId, term: Option<nat>, now: int) returns (r: Result<Record<V>, LeaseError>)
      modifies this
      ensures var expectedOwner := if owner != "" then owner else ownerId;
              var expectedFence := if term.Some? then term.value else old(fence);
              r.Success? <==> Holds(old(store.record), expectedOwner, expectedFence, now)
      ensures r.Success? ==> Some(r.value) == store.record && isLeader == old(isLeader) && fence == old(fence)
      ensures r.Failure? ==> r.error == StaleLeader && !isLeader && fence == 0
    {
      var expectedOwner := if owner != "" then owner else ownerId;
      var expectedFence := if term.Some? then term.value else fence;
      var rec := store.record;
      if rec.None? || !LiveOwner(rec.value, expectedOwner, now) || rec.value.fence != expectedFence {
        isLeader, fence := false, 0;
        return Failure(StaleLeader);
      }
      return Success(rec.value);
    }

    /** Eight attempts; the term is dropped when the record no longer carries it. */
    method MutateState(name: Name, value: V, now: int, others: seq<Option<Record<V>>>) returns (r: Result<nat, LeaseError>)
      requires |others| == 8
      modifies this, store
      ensures (store.record, r) == MutateRun(old(store.record), others, ownerId, old(fence), name, value, now)
      ensures if r == Failure(StaleLeader) then !isLeader && fence == 0 else isLeader == old(isLeader) && fence == old(fence)
    {
      var attempt := 0;
      while attempt < 8
        invariant 0 <= attempt <= 8
        invariant isLeader == old(isLeader) && fence == old(fence)
        invariant MutateRun(store.record, others[attempt..], ownerId, fence, name, value, now)
               == MutateRun(old(store.record), others, ownerId, old(fence), name, value, now)
      {
        var seen := store.record;
        var proposal := MutateProposal(seen, ownerId, fence, name, value, now);
        if proposal.None? {
          isLeader, fence := false, 0;
          return Failure(StaleLeader);
        }
        store.Interfere(others[attempt]);
        var swapped := store.CompareAndSwap(seen, proposal.value);
        if swapped {
          return Success(proposal.value.fence);
        }
        attempt := attempt + 1;
      }
      return Failure(Contention);
    }

    /** One attempt, after which the local term is gone whatever happened. */
    method Release(other: Option<Record<V>>)
      modifies this, store
      ensures !isLeader && fence == 0
      ensures var seen := old(store.record);
              if seen.Some? && seen.value.owner == ownerId && seen.value.fence == old(fence) && (other.None? || other == seen)
              then store.record.Some? && Released(seen.value, store.record.value, ttlMs)
              else store.record == if other.Some? then other else seen
    {
      var seen := store.record;
      var proposal := ReleaseProposal(seen, ownerId, fence, ttlMs);
      store.Interfere(other);
      if proposal.Some? {
        var _ := store.CompareAndSwap(seen, proposal.value);
      }
      isLeader, fence := false, 0;
    }
  }
}
