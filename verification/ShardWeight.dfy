/** Size-weighted assignment of split keys to shards. */
module ShardWeight {
  import opened ByteStrings
  import opened Sorting
  import opened Lpt

  type Weights = map<Str, real>

  function WeightOr(weights: Weights, key: Str, default: real): real {
    if key in weights then weights[key] else default
  }

  /** The comparator of the sort: heavier first, then the smaller key; not strict. */
  predicate NotAfter(weights: Weights, a: Str, b: Str) {
    var wa, wb := WeightOr(weights, a, 1.0), WeightOr(weights, b, 1.0);
    if wa != wb then wa > wb else !Less(b, a)
  }

  function HeaviestFirst(weights: Weights): (Str, Str) -> bool {
    (a, b) => NotAfter(weights, a, b)
  }

  function Ordered(keys: seq<Str>, weights: Weights): seq<Str> {
    Sort(keys, HeaviestFirst(weights))
  }

  function KeyWeights(keys: seq<Str>, weights: Weights): (r: seq<real>)
    ensures |r| == |keys|
  {
    seq(|keys|, i requires 0 <= i < |keys| => WeightOr(weights, keys[i], 1.0))
  }

  /** The map that results from assigning `owners[i]` to `keys[i]` in order. */
  function OwnerMap(keys: seq<Str>, owners: seq<nat>): map<Str, nat>
    requires |owners| == |keys|
  {
    if keys == [] then map[]
    else OwnerMap(keys[..|keys| - 1], owners[..|keys| - 1])[keys[|keys| - 1] := owners[|keys| - 1]]
  }

  function ShardCount(requested: int): nat {
    if requested < 1 then 1 else requested
  }

  /** The heaviest key first on the least loaded shard. */
  function Owners(keys: seq<Str>, shardCount: int, weights: Weights): map<Str, nat> {
    var ordered := Ordered(keys, weights);
    OwnerMap(ordered, Greedy(KeyWeights(ordered, weights), ShardCount(shardCount)))
  }

  method LeastLoaded(loads: array<real>, ghost ws: seq<real>, ghost owners: seq<nat>) returns (shard: nat)
    requires loads.Length > 0 && |owners| == |ws|
    requires forall i | 0 <= i < loads.Length :: loads[i] == Load(ws, owners, i)
    ensures shard == Lightest(ws, owners, loads.Length)
  {
    shard := 0;
    var i := 1;
    while i < loads.Length
      invariant 1 <= i <= loads.Length
      invariant shard == Lightest(ws, owners, i)
    {
      if loads[i] < loads[shard] {
        shard := i;
      }
      i := i + 1;
    }
  }

  method AssignAll(keys: seq<Str>) returns (assignment: map<Str, nat>)
    ensures assignment == map k | k in keys :: 0
  {
    assignment := map[];
    var i := 0;
    while i < |keys|
      invariant 0 <= i <= |keys|
      invariant assignment == map k | k in keys[..i] :: 0
    {
      assignment := assignment[keys[i] := 0];
      i := i + 1;
    }
    assert keys[..|keys|] == keys;
  }

  method AssignOwners(keys: seq<Str>, shardCount: int, weights: Weights) returns (assignment: map<Str, nat>)
    ensures assignment == Owners(keys, shardCount, weights)
  {
    hide Load, Greedy, Lightest, OwnerMap, Ordered;
    var n := ShardCount(shardCount);
    if n == 1 {
      OneShardOwnsAll(keys, weights);
      assignment := AssignAll(keys);
      return;
    }
    var ordered := Ordered(keys, weights);
    ghost var ws := KeyWeights(ordered, weights);
    var loads := new real[n](_ => 0.0);
    assignment := map[];
    var t := 0;
    PlaceNone(ordered, ws, n);
    while t < |ordered|
      invariant 0 <= t <= |ordered|
      invariant forall i | 0 <= i < n :: loads[i] == Load(ws[..t], Greedy(ws[..t], n), i)
      invariant assignment == OwnerMap(ordered[..t], Greedy(ws[..t], n))
    {
      var shard := LeastLoaded(loads, ws[..t], Greedy(ws[..t], n));
      PlaceNext(ordered, ws, n, t);
      loads[shard] := loads[shard] + WeightOr(weights, ordered[t], 1.0);
      assignment := assignment[ordered[t] := shard];
      t := t + 1;
    }
    assert ws[..t] == ws && ordered[..t] == ordered;
  }

  lemma PlaceNone(keys: seq<Str>, ws: seq<real>, n: nat)
    requires n > 0 && |keys| == |ws|
    ensures forall i: nat :: Load(ws[..0], Greedy(ws[..0], n), i) == 0.0
    ensures OwnerMap(keys[..0], Greedy(ws[..0], n)) == map[]
  {
  }

  lemma PlaceNext(keys: seq<Str>, ws: seq<real>, n: nat, t: nat)
    requires n > 0 && |keys| == |ws| && t < |ws|
    ensures var shard := Lightest(ws[..t], Greedy(ws[..t], n), n);
            && (forall i: nat :: Load(ws[..t + 1], Greedy(ws[..t + 1], n), i) ==
                                 Load(ws[..t], Greedy(ws[..t], n), i) + (if i == shard then ws[t] else 0.0))
            && OwnerMap(keys[..t + 1], Greedy(ws[..t + 1], n)) == OwnerMap(keys[..t], Greedy(ws[..t], n))[keys[t] := shard]
  {
    assert ws[..t + 1][..t] == ws[..t] && keys[..t + 1][..t] == keys[..t];
    forall i: nat
      ensures Load(ws[..t + 1], Greedy(ws[..t + 1], n), i) ==
              Load(ws[..t], Greedy(ws[..t], n), i) + (if i == Lightest(ws[..t], Greedy(ws[..t], n), n) then ws[t] else 0.0)
    {
      GreedyStep(ws[..t + 1], n, i);
    }
    assert Greedy(ws[..t + 1], n)[..t] == Greedy(ws[..t], n);
  }

  lemma OneShardOwnsAll(keys: seq<Str>, weights: Weights)
    ensures Owners(keys, 1, weights) == map k | k in keys :: 0
  {
    var ordered := Ordered(keys, weights);
    var ws := KeyWeights(ordered, weights);
    SortPermutes(keys, HeaviestFirst(weights));
    GreedyWithin(ws, 1);
    OwnerMapKeys(ordered, Greedy(ws, 1), 1);
    SameElements(keys, ordered);
  }

  lemma {:induction false} OwnerMapKeys(keys: seq<Str>, owners: seq<nat>, n: nat)
    requires |owners| == |keys| && Within(owners, n)
    ensures forall k :: k in OwnerMap(keys, owners) <==> k in keys
    ensures forall k | k in OwnerMap(keys, owners) :: OwnerMap(keys, owners)[k] < n
  {
    if keys != [] {
      OwnerMapKeys(keys[..|keys| - 1], owners[..|keys| - 1], n);
      assert keys == keys[..|keys| - 1] + [keys[|keys| - 1]];
    }
  }

  // What the assignment promises.

  ghost predicate Distinct(keys: seq<Str>) {
    forall k :: multiset(keys)[k] <= 1
  }

  lemma DistinctAt(keys: seq<Str>, i: nat, j: nat)
    requires Distinct(keys) && i < j < |keys|
    ensures keys[i] != keys[j]
  {
    assert keys == keys[..j] + keys[j..];
    assert keys[i] == keys[..j][i] && keys[j] == keys[j..][0];
    assert keys[i] in multiset(keys[..j]) && keys[j] in multiset(keys[j..]);
    assert multiset(keys)[keys[j]] <= 1;
  }

  lemma HeaviestFirstIsTotal(weights: Weights)
    ensures TotalOrder(HeaviestFirst(weights))
  {
    var le := HeaviestFirst(weights);
    forall a, b
      ensures le(a, b) || le(b, a)
      ensures le(a, b) && le(b, a) ==> a == b
    {
      LessTrichotomy(a, b);
    }
    forall a, b, c | le(a, b) && le(b, c)
      ensures le(a, c)
    {
      NotAfterTransitive(weights, a, b, c);
    }
  }

  lemma NotAfterTransitive(weights: Weights, a: Str, b: Str, c: Str)
    requires NotAfter(weights, a, b) && NotAfter(weights, b, c)
    ensures NotAfter(weights, a, c)
  {
    LessTrichotomy(a, b);
    LessTrichotomy(b, c);
    LessTrichotomy(a, c);
    if Less(a, b) && Less(b, c) {
      LessTransitive(a, b, c);
    }
  }

  /** The assignment depends on the keys, not on the order in which they are listed. */
  lemma OrderDoesNotMatter(keys: seq<Str>, others: seq<Str>, shardCount: int, weights: Weights)
    requires multiset(keys) == multiset(others)
    ensures Owners(keys, shardCount, weights) == Owners(others, shardCount, weights)
  {
    HeaviestFirstIsTotal(weights);
    SortIgnoresOrder(keys, others, HeaviestFirst(weights));
  }

  /** Every key is placed, on a shard that exists, and nothing else is. */
  lemma PlacesEveryKey(keys: seq<Str>, shardCount: int, weights: Weights)
    ensures forall k :: k in Owners(keys, shardCount, weights) <==> k in keys
    ensures forall k | k in keys :: Owners(keys, shardCount, weights)[k] < ShardCount(shardCount)
  {
    var ordered, n := Ordered(keys, weights), ShardCount(shardCount);
    var owners := Greedy(KeyWeights(ordered, weights), n);
    GreedyWithin(KeyWeights(ordered, weights), n);
    OwnerMapKeys(ordered, owners, n);
    SortPermutes(keys, HeaviestFirst(weights));
    SameElements(keys, ordered);
  }

  lemma SameElements(s: seq<Str>, t: seq<Str>)
    requires multiset(s) == multiset(t)
    ensures forall k :: k in s <==> k in t
  {
    forall k
      ensures k in s <==> k in t
    {
      assert k in s <==> k in multiset(s);
      assert k in t <==> k in multiset(t);
    }
  }

  /** The weight that an assignment puts on one shard. */
  function ShardLoad(keys: seq<Str>, assignment: map<Str, nat>, weights: Weights, shard: nat): real {
    if keys == [] then 0.0
    else
      ShardLoad(keys[1..], assignment, weights, shard)
      + (if keys[0] in assignment && assignment[keys[0]] == shard then WeightOr(weights, keys[0], 1.0) else 0.0)
  }

  lemma {:induction false} ShardLoadInsert(x: Str, keys: seq<Str>, le: (Str, Str) -> bool,
                                           assignment: map<Str, nat>, weights: Weights, shard: nat)
    ensures ShardLoad(Insert(x, keys, le), assignment, weights, shard) == ShardLoad([x] + keys, assignment, weights, shard)
  {
    assert ([x] + keys)[1..] == keys;
    if keys != [] && !le(x, keys[0]) {
      ShardLoadInsert(x, keys[1..], le, assignment, weights, shard);
      assert ([x] + keys[1..])[1..] == keys[1..];
      assert ([keys[0]] + Insert(x, keys[1..], le))[1..] == Insert(x, keys[1..], le);
    }
  }

  lemma {:induction false} ShardLoadSort(keys: seq<Str>, le: (Str, Str) -> bool,
                                         assignment: map<Str, nat>, weights: Weights, shard: nat)
    ensures ShardLoad(Sort(keys, le), assignment, weights, shard) == ShardLoad(keys, assignment, weights, shard)
  {
    if keys != [] {
      ShardLoadSort(keys[1..], le, assignment, weights, shard);
      ShardLoadInsert(keys[0], Sort(keys[1..], le), le, assignment, weights, shard);
      assert ([keys[0]] + Sort(keys[1..], le))[1..] == Sort(keys[1..], le);
    }
  }

  /** The owners of a list of keys under an assignment. */
  function OwnersOf(keys: seq<Str>, assignment: map<Str, nat>): (r: seq<nat>)
    requires forall k | k in keys :: k in assignment
    ensures |r| == |keys|
  {
    seq(|keys|, i requires 0 <= i < |keys| => assignment[keys[i]])
  }

  lemma {:induction false} ShardLoadSnoc(keys: seq<Str>, assignment: map<Str, nat>, weights: Weights, shard: nat)
    requires keys != []
    ensures var last := keys[|keys| - 1];
            ShardLoad(keys, assignment, weights, shard) ==
            ShardLoad(keys[..|keys| - 1], assignment, weights, shard)
            + (if last in assignment && assignment[last] == shard then WeightOr(weights, last, 1.0) else 0.0)
  {
    if |keys| > 1 {
      ShardLoadSnoc(keys[1..], assignment, weights, shard);
      assert keys[..|keys| - 1][1..] == keys[1..][..|keys| - 2];
    } else {
      assert keys[1..] == [] && keys[..|keys| - 1] == [];
    }
  }

  lemma {:induction false} ShardLoadIsLoad(keys: seq<Str>, assignment: map<Str, nat>, weights: Weights, shard: nat)
    requires forall k | k in keys :: k in assignment
    ensures ShardLoad(keys, assignment, weights, shard) == Load(KeyWeights(keys, weights), OwnersOf(keys, assignment), shard)
  {
    if keys != [] {
      var before := keys[..|keys| - 1];
      ShardLoadSnoc(keys, assignment, weights, shard);
      ShardLoadIsLoad(before, assignment, weights, shard);
      assert KeyWeights(keys, weights)[..|before|] == KeyWeights(before, weights);
      assert OwnersOf(keys, assignment)[..|before|] == OwnersOf(before, assignment);
    }
  }

  lemma {:induction false} OwnerMapAt(keys: seq<Str>, owners: seq<nat>, i: nat)
    requires |owners| == |keys| && i < |keys|
    requires forall j | i < j < |keys| :: keys[i] != keys[j]
    ensures keys[i] in OwnerMap(keys, owners) && OwnerMap(keys, owners)[keys[i]] == owners[i]
    decreases |keys|
  {
    var n := |keys| - 1;
    if i < n {
      OwnerMapAt(keys[..n], owners[..n], i);
    }
  }

  /** The loads of the assignment are those of the greedy rule on the sorted weights. */
  lemma OwnersLoad(keys: seq<Str>, shardCount: int, weights: Weights, shard: nat)
    requires Distinct(keys)
    ensures var ws := KeyWeights(Ordered(keys, weights), weights);
            ShardLoad(keys, Owners(keys, shardCount, weights), weights, shard) == Load(ws, Greedy(ws, ShardCount(shardCount)), shard)
  {
    var ordered := Ordered(keys, weights);
    var owners := Greedy(KeyWeights(ordered, weights), ShardCount(shardCount));
    SortPermutes(keys, HeaviestFirst(weights));
    forall i | 0 <= i < |ordered|
      ensures ordered[i] in OwnerMap(ordered, owners) && OwnerMap(ordered, owners)[ordered[i]] == owners[i]
    {
      forall j | i < j < |ordered|
        ensures ordered[i] != ordered[j]
      {
        DistinctAt(ordered, i, j);
      }
      OwnerMapAt(ordered, owners, i);
    }
    assert OwnersOf(ordered, OwnerMap(ordered, owners)) == owners;
    ShardLoadIsLoad(ordered, Owners(keys, shardCount, weights), weights, shard);
    ShardLoadSort(keys, HeaviestFirst(weights), Owners(keys, shardCount, weights), weights, shard);
  }

  ghost predicate WeightsUpTo(keys: seq<Str>, weights: Weights, largest: real) {
    forall k | k in keys :: 0.0 <= WeightOr(weights, k, 1.0) <= largest
  }

  /** No two shards differ by more than the largest weight, and none exceeds the average by (n - 1)/n of it. */
  lemma ShardsAreBalanced(keys: seq<Str>, shardCount: int, weights: Weights, largest: real, i: nat, j: nat)
    requires Distinct(keys) && WeightsUpTo(keys, weights, largest) && largest >= 0.0
    requires i < ShardCount(shardCount) && j < ShardCount(shardCount)
    ensures var assignment := Owners(keys, shardCount, weights);
            && ShardLoad(keys, assignment, weights, i) <= ShardLoad(keys, assignment, weights, j) + largest
            && AverageBound(ShardCount(shardCount), ShardLoad(keys, assignment, weights, i),
                            Total(KeyWeights(Ordered(keys, weights), weights)), largest)
  {
    var ws := KeyWeights(Ordered(keys, weights), weights);
    SortPermutes(keys, HeaviestFirst(weights));
    SameElements(keys, Ordered(keys, weights));
    OwnersLoad(keys, shardCount, weights, i);
    OwnersLoad(keys, shardCount, weights, j);
    Balanced(ws, ShardCount(shardCount), largest, i, j);
    NearAverage(ws, ShardCount(shardCount), largest, i);
  }

  /** `other` puts every key on one of `n` shards, none above `bound`. */
  ghost predicate Rival(keys: seq<Str>, other: map<Str, nat>, n: nat, weights: Weights, bound: real) {
    && (forall k | k in keys :: k in other && other[k] < n)
    && forall i: nat | i < n :: ShardLoad(keys, other, weights, i) <= bound
  }

  /** Whatever bound some assignment meets, this one meets up to a factor 4/3 - 1/(3n). */
  lemma WithinFourThirdsOfAny(keys: seq<Str>, shardCount: int, weights: Weights, other: map<Str, nat>, bound: real, i: nat)
    requires Distinct(keys) && forall k | k in keys :: WeightOr(weights, k, 1.0) >= 0.0
    requires i < ShardCount(shardCount) && Rival(keys, other, ShardCount(shardCount), weights, bound)
    ensures WithinFourThirds(ShardCount(shardCount), ShardLoad(keys, Owners(keys, shardCount, weights), weights, i), bound)
  {
    var ordered, n := Ordered(keys, weights), ShardCount(shardCount);
    var ws := KeyWeights(ordered, weights);
    OrderedDescends(keys, weights);
    OwnersLoad(keys, shardCount, weights, i);
    RivalIsSchedule(keys, other, n, weights, bound);
    GrahamBound(ws, n, OwnersOf(ordered, other), bound, i);
  }

  lemma OrderedDescends(keys: seq<Str>, weights: Weights)
    requires forall k | k in keys :: WeightOr(weights, k, 1.0) >= 0.0
    ensures forall k :: k in keys <==> k in Ordered(keys, weights)
    ensures Descending(KeyWeights(Ordered(keys, weights), weights))
  {
    var ordered := Ordered(keys, weights);
    var ws := KeyWeights(ordered, weights);
    SortPermutes(keys, HeaviestFirst(weights));
    SameElements(keys, ordered);
    HeaviestFirstIsTotal(weights);
    SortSorts(keys, HeaviestFirst(weights));
    forall k, l | 0 <= k <= l < |ws|
      ensures ws[k] >= ws[l]
    {
      assert k < l ==> HeaviestFirst(weights)(ordered[k], ordered[l]);
    }
  }

  lemma RivalIsSchedule(keys: seq<Str>, other: map<Str, nat>, n: nat, weights: Weights, bound: real)
    requires Rival(keys, other, n, weights, bound)
    requires forall k :: k in keys <==> k in Ordered(keys, weights)
    ensures var ordered := Ordered(keys, weights);
            Schedule(KeyWeights(ordered, weights), OwnersOf(ordered, other), n, bound)
  {
    var ordered := Ordered(keys, weights);
    var ws, owners := KeyWeights(ordered, weights), OwnersOf(ordered, other);
    forall i: nat | i < n
      ensures Load(ws, owners, i) <= bound
    {
      ShardLoadSort(keys, HeaviestFirst(weights), other, weights, i);
      ShardLoadIsLoad(ordered, other, weights, i);
    }
  }

  /** `a` is placed before `b`: it is heavier, or as heavy and before it in the order of bytes. */
  ghost predicate Precedes(weights: Weights, a: Str, b: Str) {
    var wa, wb := if a in weights then weights[a] else 1.0, if b in weights then weights[b] else 1.0;
    wa > wb || (wa == wb && Less(a, b))
  }

  lemma OwnersAt(keys: seq<Str>, shardCount: int, weights: Weights, i: nat)
    requires Distinct(keys) && i < |Ordered(keys, weights)|
    ensures var ordered := Ordered(keys, weights);
            && ordered[i] in Owners(keys, shardCount, weights)
            && Owners(keys, shardCount, weights)[ordered[i]] == Greedy(KeyWeights(ordered, weights), ShardCount(shardCount))[i]
  {
    hide Sort, Greedy;
    var ordered := Ordered(keys, weights);
    SortPermutes(keys, HeaviestFirst(weights));
    forall j | i < j < |ordered|
      ensures ordered[i] != ordered[j]
    {
      DistinctAt(ordered, i, j);
    }
    OwnerMapAt(ordered, Greedy(KeyWeights(ordered, weights), ShardCount(shardCount)), i);
  }

  /** What the keys placed before number `i` put on each shard. */
  lemma LoadBefore(keys: seq<Str>, shardCount: int, weights: Weights, i: nat, shard: nat)
    requires Distinct(keys) && i < |Ordered(keys, weights)|
    ensures var ordered := Ordered(keys, weights);
            var ws := KeyWeights(ordered, weights);
            ShardLoad(ordered[..i], Owners(keys, shardCount, weights), weights, shard)
            == Load(ws[..i], Greedy(ws[..i], ShardCount(shardCount)), shard)
  {
    hide Ordered, Greedy, Load, ShardLoad;
    var ordered, assignment := Ordered(keys, weights), Owners(keys, shardCount, weights);
    var ws := KeyWeights(ordered, weights);
    GreedyAt(ws, ShardCount(shardCount), i);
    forall j | 0 <= j < i
      ensures ordered[j] in assignment && assignment[ordered[j]] == Greedy(ws, ShardCount(shardCount))[..i][j]
    {
      OwnersAt(keys, shardCount, weights, j);
    }
    assert KeyWeights(ordered[..i], weights) == ws[..i];
    assert OwnersOf(ordered[..i], assignment) == Greedy(ws[..i], ShardCount(shardCount));
    ShardLoadIsLoad(ordered[..i], assignment, weights, shard);
  }

  /**
    * Keys are placed in descending order of weight, equal weights in the order of bytes, and each goes to the shard that
    * carries least of the keys before it, the first such shard.
    */
  lemma EachKeyToLightest(keys: seq<Str>, shardCount: int, weights: Weights, i: nat, shard: nat)
    requires Distinct(keys) && i < |Ordered(keys, weights)| && shard < ShardCount(shardCount)
    ensures multiset(Ordered(keys, weights)) == multiset(keys)
    ensures forall j | 0 <= j < i :: Precedes(weights, Ordered(keys, weights)[j], Ordered(keys, weights)[i])
    ensures var ordered, assignment := Ordered(keys, weights), Owners(keys, shardCount, weights);
            && ordered[i] in assignment && assignment[ordered[i]] < (if shardCount < 1 then 1 else shardCount)
            && var owner := assignment[ordered[i]];
            var mine := ShardLoad(ordered[..i], assignment, weights, owner);
            var theirs := ShardLoad(ordered[..i], assignment, weights, shard);
            mine < theirs || (mine == theirs && owner <= shard)
  {
    OrderedPrecedes(keys, weights, i);
    SortPermutes(keys, HeaviestFirst(weights));
    hide Ordered, Greedy, Load, ShardLoad, Lightest, Owners;
    var n, ws := ShardCount(shardCount), KeyWeights(Ordered(keys, weights), weights);
    OwnersAt(keys, shardCount, weights, i);
    GreedyAt(ws, n, i);
    var owner := Greedy(ws, n)[i];
    GreedyWithin(ws, n);
    LoadBefore(keys, shardCount, weights, i, owner);
    LoadBefore(keys, shardCount, weights, i, shard);
    LightestIsLeast(ws[..i], Greedy(ws[..i], n), n, shard);
    if Load(ws[..i], Greedy(ws[..i], n), shard) == Load(ws[..i], Greedy(ws[..i], n), owner) {
      LightestIsFirst(ws[..i], Greedy(ws[..i], n), n, shard);
    }
  }

  lemma OrderedPrecedes(keys: seq<Str>, weights: Weights, i: nat)
    requires Distinct(keys) && i < |Ordered(keys, weights)|
    ensures forall j | 0 <= j < i :: Precedes(weights, Ordered(keys, weights)[j], Ordered(keys, weights)[i])
  {
    var ordered := Ordered(keys, weights);
    SortPermutes(keys, HeaviestFirst(weights));
    HeaviestFirstIsTotal(weights);
    SortSorts(keys, HeaviestFirst(weights));
    hide Sort, Less;
    forall j | 0 <= j < i
      ensures Precedes(weights, ordered[j], ordered[i])
    {
      assert HeaviestFirst(weights)(ordered[j], ordered[i]);
      DistinctAt(ordered, j, i);
      LessTrichotomy(ordered[j], ordered[i]);
    }
  }
}
