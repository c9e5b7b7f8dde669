/**
  * The federation catalog record of one dataset: its owner with fence and expiry, a replica pointer per
  * regional store, and the write-once table of generations, all replaced together by compare-and-swap.
  */
module Catalog {
  import opened Wrappers
  import opened Sequences

  type OwnerId = string
  type Location = string
  type Profile = string

  datatype ObjectReference = ObjectReference(profile: Profile, key: string, size: nat, sha256: string)

  datatype Descriptor = Descriptor(generationId: string, sequence: nat, producedAt: int,
                                   objects: seq<ObjectReference>, manifest: ObjectReference, snapshotKey: string)

  /** An object without the store it lies in. */
  datatype ObjectId = ObjectId(key: string, size: nat, sha256: string)

  /** What the `generations` table keeps of a generation. */
  datatype Identity = Identity(generationId: string, producedAt: int, objects: seq<ObjectId>)

  /** The parsed manifest object of a generation. */
  datatype Document = Document(generationId: string, sequence: nat, producedAt: int, objects: seq<ObjectId>, snapshotKey: string)

  function IdOf(r: ObjectReference): (id: ObjectId) {
    ObjectId(r.key, r.size, r.sha256)
  }

  function Ids(refs: seq<ObjectReference>): (ids: seq<ObjectId>)
    ensures |ids| == |refs|
    ensures forall i | 0 <= i < |refs| :: ids[i] == IdOf(refs[i])
  {
    seq(|refs|, i requires 0 <= i < |refs| => IdOf(refs[i]))
  }

  function AllObjects(d: Descriptor): (refs: seq<ObjectReference>) {
    d.objects + [d.manifest]
  }

  function IdentityOf(d: Descriptor): (i: Identity) {
    Identity(d.generationId, d.producedAt, Ids(AllObjects(d)))
  }

  function DocumentOf(d: Descriptor): (doc: Document) {
    Document(d.generationId, d.sequence, d.producedAt, Ids(d.objects), d.snapshotKey)
  }

  predicate AllIn(d: Descriptor, profile: Profile) {
    forall r | r in AllObjects(d) :: r.profile == profile
  }

  /** The publication chain and residency boundary of the dataset. */
  datatype Policy = Policy(residency: set<Location>, primary: Profile, replicas: seq<Profile>)

  predicate InChain(policy: Policy, profile: Profile) {
    profile == policy.primary || profile in policy.replicas
  }

  datatype Record = Record(owner: OwnerId, location: Location, fence: nat, expiresAt: int, freshness: int,
                           replicas: map<Profile, Descriptor>, generations: map<nat, Identity>)

  datatype Operation =
    | Create(newOwner: OwnerId, newLocation: Location, leaseMs: int, freshness: int)
    | Handover(owner: OwnerId, fence: nat, newOwner: OwnerId, newLocation: Location, leaseMs: int)
    | Takeover(newOwner: OwnerId, newLocation: Location, leaseMs: int)
    | Renew(owner: OwnerId, fence: nat, leaseMs: int)
    | Advertise(owner: OwnerId, fence: nat, descriptor: Descriptor, profile: Profile)

  datatype Error = Conflict | Invalid | OutsideResidency

  /**
    * The immutable objects of the regional stores by content hash: a receipt is genuine when the
    * manifest object named by the descriptor was read back and describes exactly it.
    */
  type Content = map<string, Document>

  predicate Genuine(content: Content, d: Descriptor) {
    d.manifest.sha256 in content && content[d.manifest.sha256] == DocumentOf(d)
  }

  predicate Owns(rec: Record, owner: OwnerId, fence: nat, now: int) {
    rec.owner == owner && rec.fence == fence && rec.expiresAt > now
  }

  /** What an operation that read `seen` at clock reading `now` tries to commit. */
  function Propose(seen: Option<Record>, policy: Policy, content: Content, operation: Operation, now: int)
    : (r: Result<Record, Error>)
  {
    match operation
    case Create(owner, location, leaseMs, freshness) =>
      if leaseMs < 1 || freshness < 1 || owner == "" then Failure(Invalid)
      else if location !in policy.residency then Failure(OutsideResidency)
      else if seen.Some? then Failure(Conflict)
      else Success(Record(owner, location, 1, now + leaseMs, freshness, map[], map[]))
    case Handover(owner, fence, newOwner, newLocation, leaseMs) =>
      if leaseMs < 1 || newOwner == "" || newOwner == owner then Failure(Invalid)
      else if newLocation !in policy.residency then Failure(OutsideResidency)
      else if seen.None? || !Owns(seen.value, owner, fence, now) then Failure(Conflict)
      else Success(seen.value.(owner := newOwner, location := newLocation, fence := seen.value.fence + 1, expiresAt := now + leaseMs))
    case Takeover(newOwner, newLocation, leaseMs) =>
      if leaseMs < 1 || newOwner == "" then Failure(Invalid)
      else if newLocation !in policy.residency then Failure(OutsideResidency)
      else if seen.None? || seen.value.expiresAt > now then Failure(Conflict)
      else Success(seen.value.(owner := newOwner, location := newLocation, fence := seen.value.fence + 1, expiresAt := now + leaseMs))
    case Renew(owner, fence, leaseMs) =>
      if leaseMs < 1 then Failure(Invalid)
      else if seen.None? || !Owns(seen.value, owner, fence, now) then Failure(Conflict)
      else Success(seen.value.(expiresAt := now + leaseMs))
    case Advertise(owner, fence, d, profile) =>
      if !Genuine(content, d) then Failure(Conflict)
      else if !InChain(policy, profile) || !AllIn(d, profile) then Failure(OutsideResidency)
      else if d.producedAt > now then Failure(Invalid)
      else if seen.None? || !Owns(seen.value, owner, fence, now) then Failure(Conflict)
      else
        var rec := seen.value;
        if d.sequence in rec.generations && rec.generations[d.sequence] != IdentityOf(d) then Failure(Conflict)
        else if profile in rec.replicas && rec.replicas[profile].sequence > d.sequence then Failure(Conflict)
        else if profile in rec.replicas && rec.replicas[profile].sequence == d.sequence && rec.replicas[profile] != d then
          Failure(Conflict)
        else Success(rec.(replicas := rec.replicas[profile := d], generations := rec.generations[d.sequence := IdentityOf(d)]))
  }

  // ---------------------------------------------------------------------------------------------
  // What one operation does to the record it read
  // ---------------------------------------------------------------------------------------------

  /** `owner` holds the dataset under `fence` at `now`. */
  ghost predicate HeldBy(seen: Option<Record>, owner: OwnerId, fence: nat, now: int) {
    seen.Some? && seen.value.owner == owner && seen.value.fence == fence && now < seen.value.expiresAt
  }

  /** The arguments of the operation make sense by themselves. */
  ghost predicate SensibleArguments(operation: Operation, now: int) {
    match operation
    case Create(owner, _, leaseMs, freshness) => owner != "" && leaseMs >= 1 && freshness >= 1
    case Handover(owner, _, newOwner, _, leaseMs) => newOwner !in {"", owner} && leaseMs >= 1
    case Takeover(newOwner, _, leaseMs) => newOwner != "" && leaseMs >= 1
    case Renew(_, _, leaseMs) => leaseMs >= 1
    case Advertise(_, _, d, _) => d.producedAt <= now
  }

  /** It stays within the locations and stores of the dataset. */
  ghost predicate StaysInside(policy: Policy, operation: Operation) {
    match operation
    case Create(_, location, _, _) => location in policy.residency
    case Handover(_, _, _, location, _) => location in policy.residency
    case Takeover(_, location, _) => location in policy.residency
    case Renew(_, _, _) => true
    case Advertise(_, _, d, profile) =>
      profile in [policy.primary] + policy.replicas && forall r | r in d.objects + [d.manifest] :: r.profile == profile
  }

  /** The record allows it: nobody to create over, the live owner to act, an expired lease to take over. */
  ghost predicate RecordAllows(seen: Option<Record>, operation: Operation, now: int) {
    match operation
    case Create(_, _, _, _) => seen.None?
    case Handover(owner, fence, _, _, _) => HeldBy(seen, owner, fence, now)
    case Takeover(_, _, _) => seen.Some? && seen.value.expiresAt <= now
    case Renew(owner, fence, _) => HeldBy(seen, owner, fence, now)
    case Advertise(owner, fence, d, profile) =>
      && HeldBy(seen, owner, fence, now)
      && (d.sequence in seen.value.generations ==> seen.value.generations[d.sequence] == IdentityOf(d))
      && (profile in seen.value.replicas ==>
            seen.value.replicas[profile].sequence < d.sequence || seen.value.replicas[profile] == d)
  }

  /** The stores hold what the descriptor says. */
  ghost predicate Verified(content: Content, operation: Operation) {
    operation.Advertise? ==>
      var d := operation.descriptor;
      d.manifest.sha256 in content && content[d.manifest.sha256] == DocumentOf(d)
  }

  ghost predicate Permitted(seen: Option<Record>, policy: Policy, content: Content, operation: Operation, now: int) {
    && Verified(content, operation) && SensibleArguments(operation, now) && StaysInside(policy, operation)
    && RecordAllows(seen, operation, now)
  }

  /** What the operation makes of the record. */
  ghost predicate Writes(seen: Option<Record>, operation: Operation, now: int, next: Record) {
    match operation
    case Create(owner, location, leaseMs, freshness) =>
      next == Record(owner, location, 1, now + leaseMs, freshness, map[], map[])
    case Handover(_, _, newOwner, newLocation, leaseMs) => seen.Some? && Passes(seen.value, next, newOwner, newLocation, now + leaseMs)
    case Takeover(newOwner, newLocation, leaseMs) => seen.Some? && Passes(seen.value, next, newOwner, newLocation, now + leaseMs)
    case Renew(_, _, leaseMs) => seen.Some? && next == seen.value.(expiresAt := now + leaseMs)
    case Advertise(_, _, d, profile) =>
      && seen.Some?
      && next.replicas == seen.value.replicas[profile := d]
      && next.generations == seen.value.generations[d.sequence := IdentityOf(d)]
      && next.(replicas := map[], generations := map[]) == seen.value.(replicas := map[], generations := map[])
  }

  ghost predicate Passes(rec: Record, next: Record, newOwner: OwnerId, newLocation: Location, until: int) {
    && next.owner == newOwner && next.location == newLocation && next.fence == rec.fence + 1 && next.expiresAt == until
    && next.freshness == rec.freshness && next.replicas == rec.replicas && next.generations == rec.generations
  }

  /** An operation succeeds exactly when it is permitted, writes exactly what it says, and is refused for the right reason. */
  lemma ProposeMeans(seen: Option<Record>, policy: Policy, content: Content, operation: Operation, now: int)
    ensures var r := Propose(seen, policy, content, operation, now);
            && (r.Success? <==> Permitted(seen, policy, content, operation, now))
            && (r.Success? ==> Writes(seen, operation, now, r.value))
            && (r == Failure(Invalid) <==>
                && !SensibleArguments(operation, now)
                && (operation.Advertise? ==> Verified(content, operation) && StaysInside(policy, operation)))
            && (r == Failure(OutsideResidency) <==>
                && !StaysInside(policy, operation)
                && if operation.Advertise? then Verified(content, operation) else SensibleArguments(operation, now))
  {
    assert operation.Advertise? ==> (InChain(policy, operation.profile) <==> operation.profile in [policy.primary] + policy.replicas);
  }

  /** Every replica pointer is genuine, lies in its own store, and is the generation of its sequence. */
  ghost predicate Consistent(rec: Record, content: Content) {
    forall p | p in rec.replicas ::
      && rec.replicas[p].sequence in rec.generations
      && rec.generations[rec.replicas[p].sequence] == IdentityOf(rec.replicas[p])
      && Genuine(content, rec.replicas[p])
      && AllIn(rec.replicas[p], p)
  }

  /** Generations are write-once, and replica pointers never go backwards nor change within a sequence. */
  ghost predicate Advances(rec: Record, next: Record) {
    && (forall k | k in rec.generations :: k in next.generations && next.generations[k] == rec.generations[k])
    && (forall p | p in rec.replicas ::
          && p in next.replicas
          && rec.replicas[p].sequence <= next.replicas[p].sequence
          && (rec.replicas[p].sequence == next.replicas[p].sequence ==> rec.replicas[p] == next.replicas[p]))
  }

  /**
    * At the same fence owner and location stay; a handover or takeover, to another owner or the same, raises it by
    * one and keeps both tables.
    */
  ghost predicate KeepsOrPassesOwnership(rec: Record, next: Record) {
    if next.fence == rec.fence then next.owner == rec.owner && next.location == rec.location
    else
      && next.fence == rec.fence + 1
      && next.replicas == rec.replicas && next.generations == rec.generations
  }

  lemma ProposalIsConsistent(seen: Option<Record>, policy: Policy, content: Content, operation: Operation, now: int)
    requires seen.Some? ==> Consistent(seen.value, content)
    requires Propose(seen, policy, content, operation, now).Success?
    ensures Consistent(Propose(seen, policy, content, operation, now).value, content)
  {
  }

  lemma ProposalAdvances(seen: Record, policy: Policy, content: Content, operation: Operation, now: int)
    requires Propose(Some(seen), policy, content, operation, now).Success?
    ensures Advances(seen, Propose(Some(seen), policy, content, operation, now).value)
    ensures KeepsOrPassesOwnership(seen, Propose(Some(seen), policy, content, operation, now).value)
    ensures Propose(Some(seen), policy, content, operation, now).value.fence > seen.fence
       <==> operation.Handover? || operation.Takeover?
  {
  }

  /** Same-sequence replicas of different stores are copies of one generation, down to the serving snapshot. */
  lemma SameSequenceSameGeneration(rec: Record, content: Content, p: Profile, q: Profile)
    requires Consistent(rec, content) && p in rec.replicas && q in rec.replicas
    requires rec.replicas[p].sequence == rec.replicas[q].sequence
    ensures rec.replicas[q] == Retarget(rec.replicas[p], q)
  {
    var a, b := rec.replicas[p], rec.replicas[q];
    IdentityHasManifest(a);
    IdentityHasManifest(b);
    SnocCancel(Ids(a.objects), IdOf(a.manifest), Ids(b.objects), IdOf(b.manifest));
    SameIdsMoved(a.objects, b.objects, q) by {
      assert forall r | r in b.objects :: r in AllObjects(b);
    }
    assert b.manifest in AllObjects(b);
  }

  lemma SameIdsMoved(a: seq<ObjectReference>, b: seq<ObjectReference>, profile: Profile)
    requires Ids(a) == Ids(b) && forall r | r in b :: r.profile == profile
    ensures Moved(a, profile) == b
  {
    assert |a| == |Ids(a)| == |Ids(b)| == |b|;
    forall i | 0 <= i < |b| ensures Moved(a, profile)[i] == b[i] {
      assert IdOf(a[i]) == Ids(a)[i] == Ids(b)[i] == IdOf(b[i]);
      assert b[i] in b;
    }
  }

  /** Two generations have the same identity exactly when they agree in id, time and every object, wherever it lies. */
  lemma IdentityMeans(a: Descriptor, b: Descriptor)
    ensures IdentityOf(a) == IdentityOf(b) <==>
            && a.generationId == b.generationId && a.producedAt == b.producedAt && |a.objects| == |b.objects|
            && a.manifest.(profile := "") == b.manifest.(profile := "")
            && forall i | 0 <= i < |a.objects| :: a.objects[i].(profile := "") == b.objects[i].(profile := "")
  {
    var s, t := AllObjects(a), AllObjects(b);
    if Ids(s) == Ids(t) {
      assert |s| == |Ids(s)| == |Ids(t)| == |t|;
      assert Ids(s)[|s| - 1] == Ids(t)[|t| - 1];
      forall i | 0 <= i < |a.objects|
        ensures a.objects[i].(profile := "") == b.objects[i].(profile := "")
      {
        assert Ids(s)[i] == Ids(t)[i];
      }
    }
  }

  lemma IdentityHasManifest(d: Descriptor)
    ensures IdentityOf(d).objects == Ids(d.objects) + [IdOf(d.manifest)]
  {
    assert Ids(AllObjects(d)) == Ids(d.objects) + [IdOf(d.manifest)];
  }

  /** `RegionalReplicaVerifier.replicate`: the same generation in another store. */
  function Retarget(d: Descriptor, profile: Profile): (r: Descriptor) {
    d.(objects := Moved(d.objects, profile), manifest := d.manifest.(profile := profile))
  }

  function Moved(refs: seq<ObjectReference>, profile: Profile): (r: seq<ObjectReference>)
    ensures |r| == |refs|
    ensures forall i | 0 <= i < |refs| :: r[i] == refs[i].(profile := profile)
  {
    seq(|refs|, i requires 0 <= i < |refs| => refs[i].(profile := profile))
  }

  /** A copy keeps the identity, stays genuine and lies in its own store. */
  lemma RetargetKeepsIdentity(d: Descriptor, profile: Profile, content: Content)
    ensures IdentityOf(Retarget(d, profile)) == IdentityOf(d)
    ensures Genuine(content, d) ==> Genuine(content, Retarget(d, profile))
    ensures AllIn(Retarget(d, profile), profile)
  {
    var r := Retarget(d, profile);
    assert Ids(AllObjects(r)) == Ids(AllObjects(d));
    assert Ids(r.objects) == Ids(d.objects);
  }
}
