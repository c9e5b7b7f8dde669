/** Greedy scheduling of weights, heaviest first, on the least loaded of `n` shards. */
module Lpt {

  function Total(ws: seq<real>): real {
    if ws == [] then 0.0 else Total(ws[..|ws| - 1]) + ws[|ws| - 1]
  }

  /** The load of shard `i` when weight number `k` is on shard `owners[k]`. */
  function Load(ws: seq<real>, owners: seq<nat>, i: nat): real
    requires |owners| == |ws|
  {
    if ws == [] then 0.0
    else
      Load(ws[..|ws| - 1], owners[..|ws| - 1], i) + (if owners[|ws| - 1] == i then ws[|ws| - 1] else 0.0)
  }

  /** The least loaded shard below `n`, the lowest such index on ties. */
  function Lightest(ws: seq<real>, owners: seq<nat>, n: nat): (r: nat)
    requires n > 0 && |owners| == |ws|
    ensures r < n
  {
    if n == 1 then 0
    else
      var best := Lightest(ws, owners, n - 1);
      if Load(ws, owners, n - 1) < Load(ws, owners, best) then n - 1 else best
  }

  /** The owners that the greedy rule chooses. */
  function Greedy(ws: seq<real>, n: nat): (r: seq<nat>)
    requires n > 0
    ensures |r| == |ws|
  {
    if ws == [] then []
    else
      var owners := Greedy(ws[..|ws| - 1], n);
      owners + [Lightest(ws[..|ws| - 1], owners, n)]
  }

  ghost predicate Within(owners: seq<nat>, n: nat) {
    forall k | 0 <= k < |owners| :: owners[k] < n
  }

  lemma {:induction false} GreedyWithin(ws: seq<real>, n: nat)
    requires n > 0
    ensures Within(Greedy(ws, n), n)
  {
    if ws != [] {
      GreedyWithin(ws[..|ws| - 1], n);
    }
  }

  lemma GreedyStep(ws: seq<real>, n: nat, i: nat)
    requires n > 0 && ws != []
    ensures var before := ws[..|ws| - 1];
            var shard := Lightest(before, Greedy(before, n), n);
            Load(ws, Greedy(ws, n), i) == Load(before, Greedy(before, n), i) + (if shard == i then ws[|ws| - 1] else 0.0)
  {
    var before := ws[..|ws| - 1];
    assert Greedy(ws, n)[..|ws| - 1] == Greedy(before, n);
  }

  lemma {:induction false} LightestIsLeast(ws: seq<real>, owners: seq<nat>, n: nat, i: nat)
    requires |owners| == |ws| && i < n
    ensures Load(ws, owners, Lightest(ws, owners, n)) <= Load(ws, owners, i)
  {
    if i < n - 1 {
      LightestIsLeast(ws, owners, n - 1, i);
    }
  }

  /** Among equally light shards it is the first. */
  lemma {:induction false} LightestIsFirst(ws: seq<real>, owners: seq<nat>, n: nat, i: nat)
    requires |owners| == |ws| && i < n && Load(ws, owners, i) == Load(ws, owners, Lightest(ws, owners, n))
    ensures Lightest(ws, owners, n) <= i
  {
    if i < n - 1 {
      LightestIsLeast(ws, owners, n - 1, i);
      if Lightest(ws, owners, n) == Lightest(ws, owners, n - 1) {
        LightestIsFirst(ws, owners, n - 1, i);
      }
    }
  }

  lemma {:induction false} GreedyAt(ws: seq<real>, n: nat, i: nat)
    requires n > 0 && i < |ws|
    ensures Greedy(ws, n)[..i] == Greedy(ws[..i], n) && Greedy(ws, n)[i] == Lightest(ws[..i], Greedy(ws[..i], n), n)
  {
    if i < |ws| - 1 {
      var before := ws[..|ws| - 1];
      GreedyAt(before, n, i);
      assert before[..i] == ws[..i];
    }
  }

  // What all shards carry together.

  function LoadsBelow(ws: seq<real>, owners: seq<nat>, n: nat): real
    requires |owners| == |ws|
  {
    if n == 0 then 0.0 else LoadsBelow(ws, owners, n - 1) + Load(ws, owners, n - 1)
  }

  lemma {:induction false} EmptyLoads(n: nat)
    ensures LoadsBelow([], [], n) == 0.0
  {
    if n > 0 {
      EmptyLoads(n - 1);
    }
  }

  lemma {:induction false} LoadsBelowStep(ws: seq<real>, owners: seq<nat>, n: nat)
    requires |owners| == |ws| > 0
    ensures LoadsBelow(ws, owners, n) ==
            LoadsBelow(ws[..|ws| - 1], owners[..|ws| - 1], n) + (if owners[|ws| - 1] < n then ws[|ws| - 1] else 0.0)
  {
    if n > 0 {
      LoadsBelowStep(ws, owners, n - 1);
    }
  }

  lemma {:induction false} LoadsAddUp(ws: seq<real>, owners: seq<nat>, n: nat)
    requires |owners| == |ws| && Within(owners, n)
    ensures LoadsBelow(ws, owners, n) == Total(ws)
  {
    if ws == [] {
      EmptyLoads(n);
    } else {
      LoadsBelowStep(ws, owners, n);
      LoadsAddUp(ws[..|ws| - 1], owners[..|ws| - 1], n);
    }
  }

  lemma {:induction false} LoadsAtMost(ws: seq<real>, owners: seq<nat>, n: nat, bound: real)
    requires |owners| == |ws| && forall i: nat | i < n :: Load(ws, owners, i) <= bound
    ensures LoadsBelow(ws, owners, n) <= n as real * bound
  {
    if n > 0 {
      LoadsAtMost(ws, owners, n - 1, bound);
      assert n as real * bound == (n - 1) as real * bound + bound;
    }
  }

  lemma {:induction false} LoadsAtLeast(ws: seq<real>, owners: seq<nat>, n: nat, bound: real)
    requires |owners| == |ws| && forall i: nat | i < n :: Load(ws, owners, i) >= bound
    ensures LoadsBelow(ws, owners, n) >= n as real * bound
  {
    if n > 0 {
      LoadsAtLeast(ws, owners, n - 1, bound);
      assert n as real * bound == (n - 1) as real * bound + bound;
    }
  }

  /** The least loaded shard is no heavier than the average. */
  lemma LightestBelowAverage(ws: seq<real>, owners: seq<nat>, n: nat)
    requires n > 0 && |owners| == |ws| && Within(owners, n)
    ensures n as real * Load(ws, owners, Lightest(ws, owners, n)) <= Total(ws)
  {
    hide Load, Lightest, LoadsBelow, Total;
    var least := Load(ws, owners, Lightest(ws, owners, n));
    forall i: nat | i < n
      ensures Load(ws, owners, i) >= least
    {
      LightestIsLeast(ws, owners, n, i);
    }
    LoadsAtLeast(ws, owners, n, least);
    LoadsAddUp(ws, owners, n);
  }

  // Bounds for any order of non-negative weights.

  ghost predicate NonNegativeUpTo(ws: seq<real>, largest: real) {
    forall k | 0 <= k < |ws| :: 0.0 <= ws[k] <= largest
  }

  /** No two shards differ by more than the largest weight. */
  lemma {:induction false} Balanced(ws: seq<real>, n: nat, largest: real, i: nat, j: nat)
    requires i < n && j < n && NonNegativeUpTo(ws, largest) && largest >= 0.0
    ensures Load(ws, Greedy(ws, n), i) <= Load(ws, Greedy(ws, n), j) + largest
  {
    if ws != [] {
      var before := ws[..|ws| - 1];
      Balanced(before, n, largest, i, j);
      GreedyStep(ws, n, i);
      GreedyStep(ws, n, j);
      LightestIsLeast(before, Greedy(before, n), n, j);
    }
  }

  /** The average load plus (n - 1)/n of the largest weight. */
  ghost predicate AverageBound(n: nat, load: real, total: real, largest: real) {
    n as real * load <= total + (n as real - 1.0) * largest
  }

  lemma {:induction false} NearAverage(ws: seq<real>, n: nat, largest: real, i: nat)
    requires i < n && NonNegativeUpTo(ws, largest) && largest >= 0.0
    ensures AverageBound(n, Load(ws, Greedy(ws, n), i), Total(ws), largest)
  {
    hide AverageBound;
    if ws == [] {
      NothingIsAverage(n, largest);
    } else {
      var before, w := ws[..|ws| - 1], ws[|ws| - 1];
      var load := Load(before, Greedy(before, n), i);
      NearAverage(before, n, largest, i);
      GreedyStep(ws, n, i);
      if Lightest(before, Greedy(before, n), n) == i {
        GreedyWithin(before, n);
        AverageAfterPlacing(before, n, w, largest);
      } else {
        AverageGrows(n, load, Total(before), w, largest);
      }
    }
  }

  lemma NothingIsAverage(n: nat, largest: real)
    requires n > 0 && largest >= 0.0
    ensures AverageBound(n, 0.0, 0.0, largest)
  {
    Product(n as real - 1.0, largest);
  }

  lemma AverageGrows(n: nat, load: real, total: real, w: real, largest: real)
    requires AverageBound(n, load, total, largest) && w >= 0.0
    ensures AverageBound(n, load, total + w, largest)
  {
  }

  lemma AverageAfterPlacing(before: seq<real>, n: nat, w: real, largest: real)
    requires n > 0 && w <= largest && Within(Greedy(before, n), n)
    ensures var owners := Greedy(before, n);
            AverageBound(n, Load(before, owners, Lightest(before, owners, n)) + w, Total(before) + w, largest)
  {
    hide Load, Lightest, Total, Greedy;
    var owners := Greedy(before, n);
    LightestBelowAverage(before, owners, n);
    AddToLightest(n as real, Load(before, owners, Lightest(before, owners, n)), Total(before), w, largest);
  }

  lemma Product(a: real, b: real)
    requires a >= 0.0 && b >= 0.0
    ensures a * b >= 0.0
  {
  }

  lemma AddToLightest(n: real, least: real, total: real, w: real, largest: real)
    requires n >= 1.0 && w <= largest
    requires n * least <= total
    ensures n * (least + w) <= total + w + (n - 1.0) * largest
  {
    assert n * (least + w) == n * least + w + (n - 1.0) * w;
    Product(n - 1.0, largest - w);
  }

  // Comparison with any other assignment.

  /** `owners` is an assignment to `n` shards in which none carries more than `bound`. */
  ghost predicate Schedule(ws: seq<real>, owners: seq<nat>, n: nat, bound: real) {
    |owners| == |ws| && Within(owners, n) && forall i: nat | i < n :: Load(ws, owners, i) <= bound
  }

  lemma ScheduleBoundsTotal(ws: seq<real>, owners: seq<nat>, n: nat, bound: real)
    requires Schedule(ws, owners, n, bound)
    ensures Total(ws) <= n as real * bound
  {
    LoadsAddUp(ws, owners, n);
    LoadsAtMost(ws, owners, n, bound);
  }

  lemma {:induction false} LoadNonNegative(ws: seq<real>, owners: seq<nat>, i: nat)
    requires |owners| == |ws| && forall k | 0 <= k < |ws| :: ws[k] >= 0.0
    ensures Load(ws, owners, i) >= 0.0
  {
    if ws != [] {
      LoadNonNegative(ws[..|ws| - 1], owners[..|ws| - 1], i);
    }
  }

  lemma ScheduleOfPrefix(ws: seq<real>, owners: seq<nat>, n: nat, bound: real)
    requires Schedule(ws, owners, n, bound) && ws != [] && forall k | 0 <= k < |ws| :: ws[k] >= 0.0
    ensures Schedule(ws[..|ws| - 1], owners[..|ws| - 1], n, bound)
    ensures ws[|ws| - 1] <= bound
  {
    var last := owners[|ws| - 1];
    LoadNonNegative(ws[..|ws| - 1], owners[..|ws| - 1], last);
    assert Load(ws, owners, last) <= bound;
    var before, ownersBefore := ws[..|ws| - 1], owners[..|ws| - 1];
    forall i: nat | i < n
      ensures Load(before, ownersBefore, i) <= bound
    {
      assert Load(ws, owners, i) <= bound;
    }
  }

  ghost predicate Descending(ws: seq<real>) {
    && (forall k | 0 <= k < |ws| :: ws[k] >= 0.0)
    && forall k, l | 0 <= k <= l < |ws| :: ws[k] >= ws[l]
  }

  /** A weight counts two if nothing of at least the smallest weight fits beside it, one otherwise. */
  function Charge(w: real, room: real): real {
    if w > room then 2.0 else 1.0
  }

  function Charges(ws: seq<real>, room: real): (r: seq<real>)
    ensures |r| == |ws|
  {
    seq(|ws|, k requires 0 <= k < |ws| => Charge(ws[k], room))
  }

  /** How the charge of one shard relates to its load, when every weight is above a third of `bound`. */
  lemma {:induction false} ChargeOfLoad(ws: seq<real>, owners: seq<nat>, i: nat, bound: real, w: real)
    requires |owners| == |ws| && bound >= 0.0
    requires forall k | 0 <= k < |ws| :: ws[k] >= w && 3.0 * ws[k] > bound
    ensures var load, charge := Load(ws, owners, i), Load(Charges(ws, bound - w), owners, i);
            || (charge == 0.0 && load == 0.0)
            || (charge == 1.0 && w <= load <= bound - w && 3.0 * load > bound)
            || (charge == 2.0 && (3.0 * load > 2.0 * bound || load > bound - w))
            || (charge >= 3.0 && load > bound)
  {
    if ws != [] {
      var before := ws[..|ws| - 1];
      ChargeOfLoad(before, owners[..|ws| - 1], i, bound, w);
      assert Charges(ws, bound - w)[..|ws| - 1] == Charges(before, bound - w);
    }
  }

  lemma ChargesStep(ws: seq<real>, room: real)
    requires ws != []
    ensures Total(Charges(ws, room)) >= Total(Charges(ws[..|ws| - 1], room)) + 1.0
  {
    assert Charges(ws, room)[..|ws| - 1] == Charges(ws[..|ws| - 1], room);
  }

  /** A schedule within `bound` charges each shard at most two. */
  lemma ScheduleCharges(ws: seq<real>, owners: seq<nat>, n: nat, bound: real, w: real)
    requires Schedule(ws, owners, n, bound) && bound >= 0.0
    requires forall k | 0 <= k < |ws| :: ws[k] >= w && 3.0 * ws[k] > bound
    ensures Total(Charges(ws, bound - w)) <= n as real * 2.0
  {
    var charges := Charges(ws, bound - w);
    forall i: nat | i < n
      ensures Load(charges, owners, i) <= 2.0
    {
      ChargeOfLoad(ws, owners, i, bound, w);
    }
    LoadsAddUp(charges, owners, n);
    LoadsAtMost(charges, owners, n, 2.0);
  }

  /** If no shard of a schedule has room for `w`, each is charged at least two. */
  lemma FullSchedule(ws: seq<real>, owners: seq<nat>, n: nat, bound: real, w: real)
    requires Schedule(ws, owners, n, bound) && bound >= w >= 0.0
    requires forall k | 0 <= k < |ws| :: ws[k] >= w && 3.0 * ws[k] > bound
    requires forall i: nat | i < n :: Load(ws, owners, i) > bound - w
    ensures Total(Charges(ws, bound - w)) >= n as real * 2.0
  {
    var charges := Charges(ws, bound - w);
    forall i: nat | i < n
      ensures Load(charges, owners, i) >= 2.0
    {
      ChargeOfLoad(ws, owners, i, bound, w);
      assert Load(ws, owners, i) > bound - w;
    }
    LoadsAddUp(charges, owners, n);
    LoadsAtLeast(charges, owners, n, 2.0);
  }

  /** With only weights above a third of the bound, the greedy rule meets the bound of any schedule. */
  lemma {:induction false} GreedyIsOptimal(ws: seq<real>, n: nat, other: seq<nat>, bound: real)
    requires n > 0 && Descending(ws) && Schedule(ws, other, n, bound)
    requires forall k | 0 <= k < |ws| :: 3.0 * ws[k] > bound
    requires bound >= 0.0
    ensures Schedule(ws, Greedy(ws, n), n, bound)
  {
    GreedyWithin(ws, n);
    if ws != [] {
      var before, w := ws[..|ws| - 1], ws[|ws| - 1];
      ScheduleOfPrefix(ws, other, n, bound);
      GreedyIsOptimal(before, n, other[..|ws| - 1], bound);
      var owners := Greedy(before, n);
      var shard := Lightest(before, owners, n);
      if Load(before, owners, shard) + w > bound {
        forall i: nat | i < n
          ensures Load(before, owners, i) > bound - w
        {
          LightestIsLeast(before, owners, n, i);
        }
        FullSchedule(before, owners, n, bound, w);
        ScheduleCharges(ws, other, n, bound, w);
        ChargesStep(ws, bound - w);
        assert false;
      }
      forall i: nat | i < n
        ensures Load(ws, Greedy(ws, n), i) <= bound
      {
        GreedyStep(ws, n, i);
      }
    }
  }

  /** At most 4/3 - 1/(3n) times `bound`. */
  ghost predicate WithinFourThirds(n: nat, load: real, bound: real) {
    3.0 * n as real * load <= (4.0 * n as real - 1.0) * bound
  }

  /** Graham's bound: no shard exceeds the heaviest of any other assignment by more than a third. */
  lemma {:induction false} GrahamBound(ws: seq<real>, n: nat, other: seq<nat>, bound: real, i: nat)
    requires i < n && Descending(ws) && Schedule(ws, other, n, bound)
    ensures WithinFourThirds(n, Load(ws, Greedy(ws, n), i), bound)
  {
    hide WithinFourThirds;
    LoadNonNegative(ws, other, i);
    assert Load(ws, other, i) <= bound;
    if ws == [] {
      MeetsBound(n, 0.0, bound);
    } else {
      var before, w := ws[..|ws| - 1], ws[|ws| - 1];
      ScheduleOfPrefix(ws, other, n, bound);
      GrahamBound(before, n, other[..|ws| - 1], bound, i);
      GreedyStep(ws, n, i);
      if Lightest(before, Greedy(before, n), n) == i {
        if 3.0 * w <= bound {
          ScheduleBoundsTotal(ws, other, n, bound);
          SmallLast(before, n, w, bound);
        } else {
          GreedyIsOptimal(ws, n, other, bound);
          MeetsBound(n, Load(ws, Greedy(ws, n), i), bound);
        }
      }
    }
  }

  /** The case in which the last weight is at most a third of the bound. */
  lemma SmallLast(before: seq<real>, n: nat, w: real, bound: real)
    requires n > 0 && 3.0 * w <= bound && Total(before) + w <= n as real * bound
    ensures WithinFourThirds(n, Load(before, Greedy(before, n), Lightest(before, Greedy(before, n), n)) + w, bound)
  {
    hide Load, Lightest, Total, Greedy;
    GreedyWithin(before, n);
    LightestBelowAverage(before, Greedy(before, n), n);
    ThirdOfBound(n as real, Load(before, Greedy(before, n), Lightest(before, Greedy(before, n), n)), Total(before), w, bound);
  }

  lemma ThirdOfBound(n: real, least: real, total: real, w: real, bound: real)
    requires n >= 1.0 && n * least <= total && total + w <= n * bound && 3.0 * w <= bound
    ensures 3.0 * n * (least + w) <= (4.0 * n - 1.0) * bound
  {
    Product(n - 1.0, bound - 3.0 * w);
    assert 3.0 * n * (least + w) == 3.0 * (n * least) + 3.0 * w + (n - 1.0) * (3.0 * w);
  }

  lemma MeetsBound(n: nat, load: real, bound: real)
    requires n > 0 && load <= bound && bound >= 0.0
    ensures WithinFourThirds(n, load, bound)
  {
    BelowBound(n as real, load, bound);
  }

  lemma BelowBound(n: real, load: real, bound: real)
    requires n >= 1.0 && load <= bound && bound >= 0.0
    ensures 3.0 * n * load <= (4.0 * n - 1.0) * bound
  {
    Product(3.0 * n, bound - load);
    Product(n - 1.0, bound);
  }
}
