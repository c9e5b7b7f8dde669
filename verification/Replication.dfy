/** The catalog object and the pass that brings the replicas of owned datasets up to their primary generation. */
module Replication {
  import opened Wrappers
  import opened Catalog
  import Runs = CatalogRuns

  type DatasetId = string

  /** The catalog store: one record per dataset. */
  class GlobalCatalog {
    const policies: map<DatasetId, Policy>
    const content: Content
    var records: map<DatasetId, Record>

    constructor (policies: map<DatasetId, Policy>, content: Content)
      ensures this.policies == policies && this.content == content && records == map[]
    {
      this.policies, this.content, records := policies, content, map[];
    }

    function Get(dataset: DatasetId): (r: Option<Record>)
      reads this
    {
      if dataset in records then Some(records[dataset]) else None
    }

    /** Read, check and commit one operation; `other` is what somebody else writes between the read and the swap. */
    method Execute(dataset: DatasetId, operation: Operation, now: int, other: Option<Record>) returns (r: Result<Record, Error>)
      requires dataset in policies
      modifies this
      ensures var proposal := Propose(old(Get(dataset)), policies[dataset], content, operation, now);
              (r, Get(dataset)) == Committed(old(Get(dataset)), proposal, other)
      ensures var seen := old(Get(dataset));
              r.Success? <==> Permitted(seen, policies[dataset], content, operation, now) && (other.None? || other == seen)
      ensures r.Success? ==> Writes(old(Get(dataset)), operation, now, r.value)
      ensures r.Success? ==> records == old(records)[dataset := r.value]
      ensures records - {dataset} == old(records) - {dataset}
      ensures other.None? && r.Failure? ==> records == old(records)
    {
      var seen := Get(dataset);
      ProposeMeans(seen, policies[dataset], content, operation, now);
      r := Propose(seen, policies[dataset], content, operation, now);
      if r.Failure? {
        return;
      }
      if other.Some? {
        records := records[dataset := other.value];
      }
      if Get(dataset) != seen {
        return Failure(Conflict);
      }
      records := records[dataset := r.value];
    }
  }

  /** The outcome of a compare-and-swap and the record it leaves, when the record read was `seen`. */
  function Committed(seen: Option<Record>, proposal: Result<Record, Error>, other: Option<Record>)
    : (Result<Record, Error>, Option<Record>)
  {
    if proposal.Failure? then (proposal, seen)
    else if other.None? || other == seen then (proposal, Some(proposal.value))
    else (Failure(Conflict), other)
  }

  /**
    * One operation of the class is a read step and a swap step of the catalog runs: if the store is `t.store` when the
    * swap comes, it ends as the operation leaves it.
    */
  lemma ExecuteIsReadThenSwap(w: Runs.World, s: Runs.State, t: Runs.State, op: nat, operation: Operation, now: int)
    requires op !in s.pending && now <= s.clock
    requires var proposal := Propose(s.store, w.policy, w.content, operation, now);
             && proposal.Success?
             && op in t.pending && t.pending[op] == Runs.Next(w, s, Runs.Read(op, operation, now)).pending[op]
    requires s.store.Some? ==> t.store.Some?
    ensures var proposal := Propose(s.store, w.policy, w.content, operation, now);
            var swapped := Runs.Next(w, t, Runs.Swap(op)).store;
            && Committed(s.store, proposal, if t.store == s.store then None else t.store).1 == swapped
            && (Runs.Commits(t, op) <==> Committed(s.store, proposal, if t.store == s.store then None else t.store).0.Success?)
  {
  }

  predicate Owned(rec: Record, owner: OwnerId, location: Location) {
    rec.owner == owner && rec.location == location
  }

  /** The replica in `target` is at least at the sequence of the primary. */
  predicate UpToDate(rec: Record, primary: Profile, target: Profile)
    requires primary in rec.replicas
  {
    target in rec.replicas && rec.replicas[target].sequence >= rec.replicas[primary].sequence
  }

  /** Every replica of the dataset is at or above the primary, if there is a primary generation. */
  ghost predicate CaughtUp(rec: Record, policy: Policy) {
    policy.primary in rec.replicas ==>
      forall target | target in policy.replicas :: UpToDate(rec, policy.primary, target)
  }

  ghost predicate AllCaughtUp(records: map<DatasetId, Record>, policies: map<DatasetId, Policy>, owner: OwnerId, location: Location) {
    forall d | d in records && d in policies && Owned(records[d], owner, location) :: CaughtUp(records[d], policies[d])
  }

  /** How many of the first `i` replicas are behind the primary. */
  function Behind(rec: Record, policy: Policy, i: nat): nat
    requires policy.primary in rec.replicas && i <= |policy.replicas|
  {
    if i == 0 then 0 else Behind(rec, policy, i - 1) + (if UpToDate(rec, policy.primary, policy.replicas[i - 1]) then 0 else 1)
  }

  /** How many copies a pass has to make of the dataset. */
  function CopiesOf(rec: Record, policy: Policy, owner: OwnerId, location: Location): nat {
    if !Owned(rec, owner, location) || policy.primary !in rec.replicas then 0 else Behind(rec, policy, |policy.replicas|)
  }

  function CopiesOfAll(records: map<DatasetId, Record>, policies: map<DatasetId, Policy>, order: seq<DatasetId>,
                       owner: OwnerId, location: Location): nat
    requires forall d | d in order :: d in records && d in policies
  {
    if order == [] then 0
    else
      var d := order[|order| - 1];
      CopiesOfAll(records, policies, order[..|order| - 1], owner, location) + CopiesOf(records[d], policies[d], owner, location)
  }

  /** Copies that the regional stores refuse are not advertised. */
  ghost predicate RefusedStay(rec: Record, next: Record, d: DatasetId, copyFails: set<(DatasetId, Profile)>) {
    forall p | (d, p) in copyFails ::
      (p in next.replicas <==> p in rec.replicas) && (p in rec.replicas ==> next.replicas[p] == rec.replicas[p])
  }

  /** A pass over `rec` can complete: the lease outlives it and the primary generation lies in the past. */
  ghost predicate Ready(rec: Record, policy: Policy, content: Content, clock: nat -> int) {
    && Consistent(rec, content)
    && (forall k: nat :: clock(k) < rec.expiresAt)
    && (policy.primary in rec.replicas ==> forall k: nat :: rec.replicas[policy.primary].producedAt <= clock(k))
  }

  /** What a pass may have done to a record: only replica pointers of targets moved, to copies of the primary. */
  ghost predicate Replicated(rec: Record, next: Record, policy: Policy) {
    && next.(replicas := map[], generations := map[]) == rec.(replicas := map[], generations := map[])
    && Advances(rec, next)
    && (policy.primary in rec.replicas ==>
          && policy.primary in next.replicas
          && next.replicas[policy.primary] == rec.replicas[policy.primary]
          && forall p | p in next.replicas ::
               || (p in rec.replicas && next.replicas[p] == rec.replicas[p])
               || (p in policy.replicas && next.replicas[p] == Retarget(rec.replicas[policy.primary], p)))
  }

  /** Advertising a fresh copy of the primary moves one pointer forward. */
  lemma AdvertisedCopy(rec: Record, policy: Policy, content: Content, target: Profile, now: int)
    requires policy.primary in rec.replicas && target in policy.replicas && !UpToDate(rec, policy.primary, target)
    requires Propose(Some(rec), policy, content,
                     Advertise(rec.owner, rec.fence, Retarget(rec.replicas[policy.primary], target), target), now).Success?
    ensures var next := Propose(Some(rec), policy, content,
                                Advertise(rec.owner, rec.fence, Retarget(rec.replicas[policy.primary], target), target), now).value;
            && Replicated(rec, next, policy)
            && UpToDate(next, policy.primary, target)
            && forall p | p in policy.replicas && p != target ::
                 UpToDate(next, policy.primary, p) <==> UpToDate(rec, policy.primary, p)
  {
    ProposalAdvances(rec, policy, content,
                     Advertise(rec.owner, rec.fence, Retarget(rec.replicas[policy.primary], target), target), now);
  }

  /** In an undisturbed pass such an advertisement is never refused. */
  lemma CopyIsAccepted(rec: Record, policy: Policy, content: Content, target: Profile, now: int)
    requires Consistent(rec, content) && now < rec.expiresAt
    requires policy.primary in rec.replicas && rec.replicas[policy.primary].producedAt <= now
    requires target in policy.replicas && !UpToDate(rec, policy.primary, target)
    ensures Propose(Some(rec), policy, content,
                    Advertise(rec.owner, rec.fence, Retarget(rec.replicas[policy.primary], target), target), now).Success?
  {
    RetargetKeepsIdentity(rec.replicas[policy.primary], target, content);
  }

  lemma ReplicatedTransitive(a: Record, b: Record, c: Record, policy: Policy)
    requires Replicated(a, b, policy) && Replicated(b, c, policy)
    ensures Replicated(a, c, policy)
  {
    forall p | p in a.replicas && a.replicas[p].sequence == c.replicas[p].sequence
      ensures a.replicas[p] == c.replicas[p]
    {
      assert a.replicas[p].sequence <= b.replicas[p].sequence <= c.replicas[p].sequence;
    }
  }

  lemma ReplicatedReflexive(a: Record, policy: Policy)
    ensures Replicated(a, a, policy)
  {
  }

  /** The advertisement of the primary's generation, as copied into `target`. */
  function CopyOf(rec: Record, primary: Profile, target: Profile): Operation
    requires primary in rec.replicas
  {
    Advertise(rec.owner, rec.fence, Retarget(rec.replicas[primary], target), target)
  }

  ghost predicate Distinct(targets: seq<Profile>) {
    forall i, j | 0 <= i < j < |targets| :: targets[i] != targets[j]
  }

  /** The state of a pass over one dataset before target number `i`: `listed` was read, `live` is stored. */
  ghost predicate Passed(listed: Record, live: Record, policy: Policy, content: Content, i: nat) {
    && policy.primary in listed.replicas
    && Replicated(listed, live, policy)
    && (forall j | 0 <= j < i && j < |policy.replicas| :: UpToDate(live, policy.primary, policy.replicas[j]))
    && (forall j | i <= j < |policy.replicas| ::
          UpToDate(live, policy.primary, policy.replicas[j]) <==> UpToDate(listed, policy.primary, policy.replicas[j]))
    && (CaughtUp(listed, policy) ==> live == listed)
    && (Consistent(listed, content) ==> Consistent(live, content))
  }

  lemma PassStarts(listed: Record, policy: Policy, content: Content)
    requires policy.primary in listed.replicas
    ensures Passed(listed, listed, policy, content, 0)
  {
  }

  lemma PassSkips(listed: Record, live: Record, policy: Policy, content: Content, i: nat)
    requires Passed(listed, live, policy, content, i) && i < |policy.replicas|
    requires UpToDate(listed, policy.primary, policy.replicas[i])
    ensures Passed(listed, live, policy, content, i + 1)
  {
  }

  lemma PassAdvertises(listed: Record, live: Record, policy: Policy, content: Content, i: nat, now: int)
    requires Passed(listed, live, policy, content, i) && i < |policy.replicas| && Distinct(policy.replicas)
    requires !UpToDate(listed, policy.primary, policy.replicas[i])
    requires Propose(Some(live), policy, content, CopyOf(listed, policy.primary, policy.replicas[i]), now).Success?
    ensures Passed(listed, Propose(Some(live), policy, content, CopyOf(listed, policy.primary, policy.replicas[i]), now).value,
                   policy, content, i + 1)
  {
    hide Propose, Consistent, Advances;
    var target := policy.replicas[i];
    assert CopyOf(listed, policy.primary, target) == CopyOf(live, policy.primary, target);
    var next := Propose(Some(live), policy, content, CopyOf(live, policy.primary, target), now).value;
    AdvertisedCopy(live, policy, content, target, now);
    if Consistent(live, content) {
      ProposalIsConsistent(Some(live), policy, content, CopyOf(live, policy.primary, target), now);
    }
    hide Replicated;
    ReplicatedTransitive(listed, live, next, policy);
    assert !CaughtUp(listed, policy);
  }

  lemma CopyWrites(listed: Record, live: Record, policy: Policy, content: Content, target: Profile, now: int)
    requires policy.primary in listed.replicas
    requires Propose(Some(live), policy, content, CopyOf(listed, policy.primary, target), now).Success?
    ensures var next := Propose(Some(live), policy, content, CopyOf(listed, policy.primary, target), now).value;
            next.replicas == live.replicas[target := Retarget(listed.replicas[policy.primary], target)]
  {
    hide Propose;
    ProposeMeans(Some(live), policy, content, CopyOf(listed, policy.primary, target), now);
  }

  lemma PassEnds(listed: Record, live: Record, policy: Policy, content: Content)
    requires Passed(listed, live, policy, content, |policy.replicas|)
    ensures Replicated(listed, live, policy) && CaughtUp(live, policy)
  {
  }

  lemma PassIsAccepted(listed: Record, live: Record, policy: Policy, content: Content, i: nat, clock: nat -> int, now: nat)
    requires Passed(listed, live, policy, content, i) && i < |policy.replicas|
    requires !UpToDate(listed, policy.primary, policy.replicas[i])
    requires Ready(listed, policy, content, clock)
    ensures Propose(Some(live), policy, content, CopyOf(listed, policy.primary, policy.replicas[i]), clock(now)).Success?
  {
    hide Propose, Consistent;
    assert CopyOf(listed, policy.primary, policy.replicas[i]) == CopyOf(live, policy.primary, policy.replicas[i]);
    CopyIsAccepted(live, policy, content, policy.replicas[i], clock(now));
  }

  lemma PassedMeans(listed: Record, live: Record, policy: Policy, content: Content, i: nat)
    requires Passed(listed, live, policy, content, i)
    ensures Replicated(listed, live, policy)
    ensures CaughtUp(listed, policy) ==> live == listed
  {
  }

  /** What a pass has done to one record, and what it leaves when it is `through`. */
  ghost predicate Progress(before: Record, after: Record, policy: Policy, owner: OwnerId, location: Location, through: bool,
                           d: DatasetId, copyFails: set<(DatasetId, Profile)>)
  {
    && RefusedStay(before, after, d, copyFails)
    && if Owned(before, owner, location) then Replicated(before, after, policy) && (through ==> CaughtUp(after, policy))
       else after == before
  }

  /** The inner loop of `replicate_owned`, for one dataset; `done` advertisements were made before. */
  method ReplicateDataset(catalog: GlobalCatalog, d: DatasetId, owner: OwnerId, location: Location,
                          clock: nat -> int, copyFails: set<(DatasetId, Profile)>, done: nat)
    returns (r: Result<nat, Error>)
    requires d in catalog.records && d in catalog.policies && Distinct(catalog.policies[d].replicas)
    modifies catalog
    ensures d in catalog.records && catalog.records == old(catalog.records)[d := catalog.records[d]]
    ensures Progress(old(catalog.records)[d], catalog.records[d], catalog.policies[d], owner, location, r.Success?, d, copyFails)
    ensures (Owned(old(catalog.records)[d], owner, location) ==> CaughtUp(old(catalog.records)[d], catalog.policies[d])) ==>
              r == Success(done) && catalog.records == old(catalog.records)
    ensures (Owned(old(catalog.records)[d], owner, location) ==>
               Ready(old(catalog.records)[d], catalog.policies[d], catalog.content, clock)) && copyFails == {}
            ==> r.Success?
    ensures r.Success? ==> r.value == done + CopiesOf(old(catalog.records)[d], catalog.policies[d], owner, location)
  {
    hide Propose, Passed, Replicated, Ready;
    var listed, policy := catalog.records[d], catalog.policies[d];
    ReplicatedReflexive(listed, policy);
    if !Owned(listed, owner, location) || policy.primary !in listed.replicas {
      return Success(done);
    }
    var completed, i := done, 0;
    PassStarts(listed, policy, catalog.content);
    while i < |policy.replicas|
      invariant 0 <= i <= |policy.replicas|
      invariant d in catalog.records && catalog.records == old(catalog.records)[d := catalog.records[d]]
      invariant Passed(listed, catalog.records[d], policy, catalog.content, i)
      invariant CaughtUp(listed, policy) ==> completed == done
      invariant completed == done + Behind(listed, policy, i)
      invariant RefusedStay(listed, catalog.records[d], d, copyFails)
    {
      ghost var live := catalog.records[d];
      PassedMeans(listed, live, policy, catalog.content, i);
      if UpToDate(listed, policy.primary, policy.replicas[i]) {
        PassSkips(listed, live, policy, catalog.content, i);
      } else {
        if (d, policy.replicas[i]) in copyFails {
          return Failure(Conflict);
        }
        if Ready(listed, policy, catalog.content, clock) {
          PassIsAccepted(listed, live, policy, catalog.content, i, clock, completed);
        }
        var advertised := catalog.Execute(d, CopyOf(listed, policy.primary, policy.replicas[i]), clock(completed), None);
        if advertised.Failure? {
          return Failure(advertised.error);
        }
        PassAdvertises(listed, live, policy, catalog.content, i, clock(completed));
        CopyWrites(listed, live, policy, catalog.content, policy.replicas[i], clock(completed));
        completed := completed + 1;
      }
      i := i + 1;
    }
    PassEnds(listed, catalog.records[d], policy, catalog.content);
    PassedMeans(listed, catalog.records[d], policy, catalog.content, i);
    return Success(completed);
  }

  lemma CopiesStart(records: map<DatasetId, Record>, policies: map<DatasetId, Policy>, owner: OwnerId, location: Location)
    ensures CopiesOfAll(records, policies, [], owner, location) == 0
  {
  }

  lemma CopiesNext(records: map<DatasetId, Record>, policies: map<DatasetId, Policy>, order: seq<DatasetId>, i: nat,
                   owner: OwnerId, location: Location)
    requires i < |order| && forall d | d in order :: d in records && d in policies
    ensures CopiesOfAll(records, policies, order[..i + 1], owner, location)
         == CopiesOfAll(records, policies, order[..i], owner, location)
            + CopiesOf(records[order[i]], policies[order[i]], owner, location)
  {
    assert order[..i + 1][..i] == order[..i];
  }

  lemma NoProgress(rec: Record, policy: Policy, owner: OwnerId, location: Location, d: DatasetId, copyFails: set<(DatasetId, Profile)>)
    ensures Progress(rec, rec, policy, owner, location, false, d, copyFails)
  {
    hide Replicated;
    ReplicatedReflexive(rec, policy);
  }

  lemma Halted(before: Record, after: Record, policy: Policy, owner: OwnerId, location: Location, through: bool, d: DatasetId,
               copyFails: set<(DatasetId, Profile)>)
    requires Progress(before, after, policy, owner, location, through, d, copyFails)
    ensures Progress(before, after, policy, owner, location, false, d, copyFails)
  {
    hide Replicated, RefusedStay, CaughtUp;
  }

  lemma CompletedPass(before: Record, after: Record, policy: Policy, owner: OwnerId, location: Location, d: DatasetId,
                      copyFails: set<(DatasetId, Profile)>)
    requires Progress(before, after, policy, owner, location, true, d, copyFails)
    ensures Owned(after, owner, location) ==> CaughtUp(after, policy)
  {
    assert Owned(before, owner, location) ==> after.owner == before.owner && after.location == before.location;
  }

  /**
    * `replicate_owned` without interference.  `order` lists every dataset once, `clock(k)` is the reading
    * before the k-th advertisement and `copyFails` the copies that the regional stores refuse.  A pass
    * that completes leaves every replica of the owned datasets at or above its primary; when they already
    * are, it does nothing, so an immediate second pass does no work.
    */
  method ReplicateOwned(catalog: GlobalCatalog, order: seq<DatasetId>, owner: OwnerId, location: Location,
                        clock: nat -> int, copyFails: set<(DatasetId, Profile)>)
    returns (r: Result<nat, Error>)
    requires catalog.records.Keys <= catalog.policies.Keys
    requires forall d :: d in order <==> d in catalog.records
    requires forall i, j | 0 <= i < j < |order| :: order[i] != order[j]
    requires forall d | d in catalog.policies :: Distinct(catalog.policies[d].replicas)
    modifies catalog
    ensures catalog.records.Keys == old(catalog.records.Keys)
    ensures forall d | d in catalog.records ::
              Progress(old(catalog.records)[d], catalog.records[d], catalog.policies[d], owner, location, r.Success?, d, copyFails)
    ensures r.Success? ==> AllCaughtUp(catalog.records, catalog.policies, owner, location)
    ensures AllCaughtUp(old(catalog.records), catalog.policies, owner, location) ==>
              r == Success(0) && catalog.records == old(catalog.records)
    ensures r.Success? ==> r.value == CopiesOfAll(old(catalog.records), catalog.policies, order, owner, location)
    ensures copyFails == {}
            && (forall d | d in old(catalog.records) && Owned(old(catalog.records)[d], owner, location) ::
                  Ready(old(catalog.records)[d], catalog.policies[d], catalog.content, clock))
            ==> r.Success?
  {
    hide Progress, CaughtUp, Ready, Distinct, Propose, Owned, CopiesOf, CopiesOfAll;
    CopiesStart(catalog.records, catalog.policies, owner, location);
    ghost var before, through := catalog.records, {};
    var completed, i := 0, 0;
    forall d | d in before ensures Progress(before[d], before[d], catalog.policies[d], owner, location, false, d, copyFails) {
      NoProgress(before[d], catalog.policies[d], owner, location, d, copyFails);
    }
    while i < |order|
      invariant 0 <= i <= |order|
      invariant catalog.records.Keys == before.Keys
      invariant forall j | 0 <= j < |order| :: order[j] in through <==> j < i
      invariant forall d | d in before && d !in through :: catalog.records[d] == before[d]
      invariant forall d | d in before ::
                  Progress(before[d], catalog.records[d], catalog.policies[d], owner, location, d in through, d, copyFails)
      invariant AllCaughtUp(before, catalog.policies, owner, location) ==> completed == 0 && catalog.records == before
      invariant completed == CopiesOfAll(before, catalog.policies, order[..i], owner, location)
    {
      CopiesNext(before, catalog.policies, order, i, owner, location);
      var pass := ReplicateDataset(catalog, order[i], owner, location, clock, copyFails, completed);
      if pass.Failure? {
        forall d | d in before
          ensures Progress(before[d], catalog.records[d], catalog.policies[d], owner, location, false, d, copyFails)
        {
          Halted(before[d], catalog.records[d], catalog.policies[d], owner, location, d in through && d != order[i], d, copyFails);
        }
        return pass;
      }
      completed := pass.value;
      through := through + {order[i]};
      i := i + 1;
    }
    assert order[..i] == order;
    forall d | d in before ensures Owned(catalog.records[d], owner, location) ==> CaughtUp(catalog.records[d], catalog.policies[d]) {
      CompletedPass(before[d], catalog.records[d], catalog.policies[d], owner, location, d, copyFails);
    }
    return Success(completed);
  }
}
