/** The capacity argument, cluster by cluster. */
module QuotaRounds {

  function Min(a: int, b: int): int {
    if a < b then a else b
  }

  function Max(a: int, b: int): int {
    if a < b then b else a
  }

  /** `MPI_Allreduce` with `MPI_SUM`. */
  function Sum(s: seq<int>): int {
    if s == [] then 0 else Sum(s[..|s| - 1]) + s[|s| - 1]
  }

  /** A rank's share of what `total` leaves over a global count. */
  function Share(total: nat, count: int, size: nat): (q: int)
    requires size > 0
  {
    if total > count then (total - count) / size else 0
  }

  /** What each rank may add in a round that starts with the local counts `local`. */
  function Quota(total: nat, local: seq<int>): int
    requires |local| > 0
  {
    Share(total, Sum(local), |local|)
  }

  function FirstQuota(total: nat, hardcut: nat, size: nat, rows: nat): int
    requires size > 0
  {
    if hardcut == 0 then rows else hardcut * total / size
  }

  /** The quotas of the first round. */
  function FirstQuotas(total: nat, hardcut: nat, rows: seq<nat>): seq<int> {
    seq(|rows|, r requires 0 <= r < |rows| => FirstQuota(total, hardcut, |rows|, rows[r]))
  }

  /** Every rank takes what its rows ask for, up to its quota. */
  function Take(local: seq<int>, quotas: seq<int>, demand: seq<nat>): (after: seq<int>)
    requires |local| == |quotas| == |demand|
    ensures |after| == |local|
  {
    seq(|local|, r requires 0 <= r < |local| => local[r] + Min(quotas[r], demand[r]))
  }

  ghost predicate Demands(demand: seq<seq<nat>>, ranks: nat) {
    forall j :: 0 <= j < |demand| ==> |demand[j]| == ranks
  }

  function QuotasOf(total: nat, local: seq<int>): seq<int>
    requires |local| > 0
  {
    seq(|local|, _ => Quota(total, local))
  }

  /** The local counts of a cluster after all the rounds of `demand` (round by round, rank by rank). */
  function Counts(total: nat, hardcut: nat, rows: seq<nat>, demand: seq<seq<nat>>): (local: seq<int>)
    requires |rows| > 0 && Demands(demand, |rows|)
    ensures |local| == |rows|
  {
    if demand == [] then seq(|rows|, _ => 0)
    else
      var n := |demand| - 1;
      var before := Counts(total, hardcut, rows, demand[..n]);
      Take(before, if n == 0 then FirstQuotas(total, hardcut, rows) else QuotasOf(total, before), demand[n])
  }

  lemma {:induction false} SumTake(local: seq<int>, quotas: seq<int>, demand: seq<nat>, q: int)
    requires |local| == |quotas| == |demand|
    requires forall r :: 0 <= r < |quotas| ==> 0 <= quotas[r] <= q
    ensures Sum(local) <= Sum(Take(local, quotas, demand)) <= Sum(local) + q * |local|
    ensures forall r :: 0 <= r < |local| ==> local[r] <= Take(local, quotas, demand)[r]
  {
    if local != [] {
      var n := |local| - 1;
      SumTake(local[..n], quotas[..n], demand[..n], q);
      TakeLast(local, quotas, demand);
      Distribute(q, n);
    }
  }

  lemma TakeLast(local: seq<int>, quotas: seq<int>, demand: seq<nat>)
    requires |local| == |quotas| == |demand| > 0
    ensures var n := |local| - 1;
      Take(local, quotas, demand) == Take(local[..n], quotas[..n], demand[..n]) + [local[n] + Min(quotas[n], demand[n])]
    ensures var n := |local| - 1;
      Sum(Take(local, quotas, demand)) == Sum(Take(local[..n], quotas[..n], demand[..n])) + local[n] +
        Min(quotas[n], demand[n])
  {
    var n := |local| - 1;
    assert Take(local, quotas, demand)[..n] == Take(local[..n], quotas[..n], demand[..n]);
  }

  lemma Distribute(q: int, n: nat)
    ensures q * (n + 1) == q * n + q
  {
  }

  lemma DivideShare(a: nat, n: nat)
    requires n > 0
    ensures 0 <= a / n && a / n * n <= a
  {
  }

  /**
    A later round never loses a row and takes a cluster from `G` to at most `max(G, total)`, over all ranks together.
   */
  lemma LaterRound(total: nat, local: seq<int>, demand: seq<nat>)
    requires |local| == |demand| > 0
    ensures Sum(local) <= Sum(Take(local, QuotasOf(total, local), demand)) <= Max(Sum(local), total)
  {
    if total > Sum(local) {
      DivideShare(total - Sum(local), |local|);
    }
    SumTake(local, QuotasOf(total, local), demand, Quota(total, local));
  }

  /**
    One of `n` ranks, `demand` of whose rows ask, gains all of them, or so many that one more on every rank would be
    more than the budget; and it never gains more than its part.
   */
  predicate UsesShare(gained: int, demand: nat, n: nat, budget: int) {
    && 0 <= gained <= demand && gained * n <= Max(0, budget)
    && (gained == demand || (gained + 1) * n > budget)
  }

  lemma QuotientBounds(a: nat, n: nat)
    requires n > 0
    ensures a / n * n <= a < (a / n + 1) * n
  {
    assert (a / n + 1) * n == a / n * n + n;
  }

  lemma QuotientUsed(a: nat, n: nat, q: nat, demand: nat)
    requires q * n <= a < (q + 1) * n
    ensures UsesShare(Min(q, demand), demand, n, a)
  {
    if demand < q {
      assert demand * n <= q * n;
    }
  }

  lemma ShareUsed(total: nat, count: int, n: nat, demand: nat, gained: int)
    requires n > 0 && gained == Min(Share(total, count, n), demand)
    ensures UsesShare(gained, demand, n, total - count)
  {
    if total > count {
      QuotientBounds(total - count, n);
      QuotientUsed(total - count, n, (total - count) / n, demand);
    }
  }

  lemma Gained(local: seq<int>, quotas: seq<int>, demand: seq<nat>, r: nat)
    requires |local| == |quotas| == |demand| > r
    ensures Take(local, quotas, demand)[r] - local[r] == Min(quotas[r], demand[r])
  {
  }

  /** In a later round every rank uses its share of what `total` leaves over. */
  lemma RoundUsesShare(total: nat, local: seq<int>, demand: seq<nat>, r: nat, gained: int)
    requires |local| == |demand| > r && gained == Take(local, QuotasOf(total, local), demand)[r] - local[r]
    ensures UsesShare(gained, demand[r], |local|, total - Sum(local))
  {
    Gained(local, QuotasOf(total, local), demand, r);
    ShareUsed(total, Sum(local), |local|, demand[r], gained);
  }

  /** In the first round it uses its share of the hard cut; without one it takes every row that asks. */
  lemma FirstUsesShare(total: nat, hardcut: nat, rows: seq<nat>, demand: seq<nat>, r: nat, gained: int)
    requires |rows| == |demand| > r && demand[r] <= rows[r]
    requires gained == Take(seq(|rows|, _ => 0), FirstQuotas(total, hardcut, rows), demand)[r]
    ensures if hardcut == 0 then gained == demand[r] else UsesShare(gained, demand[r], |rows|, hardcut * total)
  {
    if hardcut > 0 {
      ShareUsed(hardcut * total, 0, |rows|, demand[r], gained);
    }
  }

  /** What the first round gives to the cluster; known before any round is run. */
  function FirstRound(total: nat, hardcut: nat, rows: seq<nat>, first: seq<nat>): int
    requires |rows| == |first|
  {
    Sum(Take(seq(|rows|, _ => 0), FirstQuotas(total, hardcut, rows), first))
  }

  /** After any number of rounds the count lies between the first round's and the larger of that and `total`. */
  lemma {:induction false} CountsBounds(total: nat, hardcut: nat, rows: seq<nat>, demand: seq<seq<nat>>)
    requires |rows| > 0 && |demand| > 0 && Demands(demand, |rows|)
    ensures FirstRound(total, hardcut, rows, demand[0]) <= Sum(Counts(total, hardcut, rows, demand))
      <= Max(FirstRound(total, hardcut, rows, demand[0]), total)
    decreases |demand|
  {
    var n := |demand| - 1;
    CountsStep(total, hardcut, rows, demand);
    if n > 0 {
      CountsBounds(total, hardcut, rows, demand[..n]);
      LaterRound(total, Counts(total, hardcut, rows, demand[..n]), demand[n]);
      assert demand[..n][0] == demand[0];
    }
  }

  /** The last of the rounds. */
  lemma CountsStep(total: nat, hardcut: nat, rows: seq<nat>, demand: seq<seq<nat>>)
    requires |rows| > 0 && |demand| > 0 && Demands(demand, |rows|)
    ensures var n := |demand| - 1; var before := Counts(total, hardcut, rows, demand[..n]);
      if n == 0 then Sum(Counts(total, hardcut, rows, demand)) == FirstRound(total, hardcut, rows, demand[0])
      else Counts(total, hardcut, rows, demand) == Take(before, QuotasOf(total, before), demand[n])
  {
    if |demand| == 1 {
      assert Counts(total, hardcut, rows, demand[..0]) == seq(|rows|, _ => 0);
    }
  }

  /** The cluster ends within `total` exactly when its first round already does. */
  lemma CapacityIff(total: nat, hardcut: nat, rows: seq<nat>, demand: seq<seq<nat>>)
    requires |rows| > 0 && |demand| > 0 && Demands(demand, |rows|)
    ensures Sum(Counts(total, hardcut, rows, demand)) <= total <==> FirstRound(total, hardcut, rows, demand[0]) <= total
  {
    CountsBounds(total, hardcut, rows, demand);
  }

  /** With the hard cut at 1 the capacity always holds. */
  lemma HardCutCapacity(total: nat, rows: seq<nat>, demand: seq<seq<nat>>)
    requires |rows| > 0 && |demand| > 0 && Demands(demand, |rows|)
    ensures Sum(Counts(total, 1, rows, demand)) <= total
  {
    var zero := seq(|rows|, _ => 0);
    DivideShare(total, |rows|);
    SumZero(|rows|);
    SumTake(zero, FirstQuotas(total, 1, rows), demand[0], total / |rows|);
    CapacityIff(total, 1, rows, demand);
  }

  lemma {:induction false} SumZero(n: nat)
    ensures Sum(seq(n, _ => 0)) == 0
  {
    if n > 0 {
      SumZero(n - 1);
      assert seq(n, _ => 0)[..n - 1] == seq(n - 1, _ => 0);
    }
  }

  lemma {:induction false} SumTakeAll(demand: seq<nat>, quotas: seq<int>)
    requires |quotas| == |demand| && forall r :: 0 <= r < |demand| ==> demand[r] <= quotas[r]
    ensures Sum(Take(seq(|demand|, _ => 0), quotas, demand)) == Sum(demand)
  {
    assert Take(seq(|demand|, _ => 0), quotas, demand) == demand;
  }

  /** Without the hard cut it holds exactly when the rows nearest to the cluster are no more than `total`. */
  lemma SoftCutCapacity(total: nat, rows: seq<nat>, demand: seq<seq<nat>>)
    requires |rows| > 0 && |demand| > 0 && Demands(demand, |rows|)
    requires forall r :: 0 <= r < |rows| ==> demand[0][r] <= rows[r]
    ensures Sum(Counts(total, 0, rows, demand)) <= total <==> Sum(demand[0]) <= total
  {
    SumTakeAll(demand[0], FirstQuotas(total, 0, rows));
    CapacityIff(total, 0, rows, demand);
  }

  /** One rank, three rows, all nearest to a cluster whose capacity is two: the soft cut overfills it. */
  lemma SoftCutOverfills()
    ensures Sum(Counts(2, 0, [3], [[3]])) == 3
  {
    assert Counts(2, 0, [3], [[3]][..0]) == [0];
    assert Counts(2, 0, [3], [[3]]) == [3];
    assert [3][..0] == [];
  }

  // ----- one rank among the others -----

  /**
    A rank's own view: its local count after the rounds of `demand`, when the all-reduce after
    round `c` answered `answers[c]`.
   */
  function RankCount(total: nat, hardcut: nat, size: nat, rows: nat, demand: seq<nat>, answers: seq<int>): int
    requires size > 0 && |demand| <= |answers| + 1
  {
    if demand == [] then 0
    else
      var n := |demand| - 1;
      RankCount(total, hardcut, size, rows, demand[..n], answers) +
      Min(if n == 0 then FirstQuota(total, hardcut, size, rows) else Share(total, answers[n - 1], size), demand[n])
  }

  lemma {:induction false} AnswersPrefix(total: nat, hardcut: nat, size: nat, rows: nat, demand: seq<nat>,
      answers: seq<int>, n: nat)
    requires size > 0 && |demand| <= n + 1 && n <= |answers|
    ensures RankCount(total, hardcut, size, rows, demand, answers) ==
      RankCount(total, hardcut, size, rows, demand, answers[..n])
  {
    if demand != [] {
      AnswersPrefix(total, hardcut, size, rows, demand[..|demand| - 1], answers, n);
    }
  }

  function RankDemand(demand: seq<seq<nat>>, ranks: nat, r: nat): seq<nat>
    requires r < ranks && forall j :: 0 <= j < |demand| ==> |demand[j]| == ranks
  {
    seq(|demand|, j requires 0 <= j < |demand| => demand[j][r])
  }

  /** The local counts of all ranks, each seen from its own view. */
  function Views(total: nat, hardcut: nat, rows: seq<nat>, demand: seq<seq<nat>>, answers: seq<int>): seq<int>
    requires |rows| > 0 && |demand| <= |answers| + 1
    requires forall j :: 0 <= j < |demand| ==> |demand[j]| == |rows|
  {
    seq(|rows|, r requires 0 <= r < |rows| =>
      RankCount(total, hardcut, |rows|, rows[r], RankDemand(demand, |rows|, r), answers))
  }

  /** The all-reduce is a sum: its answer after every round is the sum of what the ranks then hold. */
  ghost predicate ReducesToSum(total: nat, hardcut: nat, rows: seq<nat>, demand: seq<seq<nat>>, answers: seq<int>)
    requires |rows| > 0 && |demand| <= |answers| + 1 && Demands(demand, |rows|)
  {
    forall n :: 0 <= n < |demand| - 1 ==> answers[n] == SumAfter(total, hardcut, rows, demand, answers, n + 1)
  }

  /** What the ranks hold together after the first `n` rounds. */
  function SumAfter(total: nat, hardcut: nat, rows: seq<nat>, demand: seq<seq<nat>>, answers: seq<int>, n: nat): int
    requires |rows| > 0 && |demand| <= |answers| + 1 && n <= |demand|
    requires forall j :: 0 <= j < |demand| ==> |demand[j]| == |rows|
  {
    Sum(Views(total, hardcut, rows, demand[..n], answers))
  }

  lemma SumAfterPrefix(total: nat, hardcut: nat, rows: seq<nat>, demand: seq<seq<nat>>, answers: seq<int>, n: nat,
      m: nat)
    requires |rows| > 0 && |demand| <= |answers| + 1 && m <= n <= |demand| && Demands(demand, |rows|)
    ensures SumAfter(total, hardcut, rows, demand[..n], answers, m) ==
      SumAfter(total, hardcut, rows, demand, answers, m)
  {
    assert demand[..n][..m] == demand[..m];
  }

  lemma ReducesPrefix(total: nat, hardcut: nat, rows: seq<nat>, demand: seq<seq<nat>>, answers: seq<int>)
    requires |rows| > 0 && 0 < |demand| <= |answers| + 1 && Demands(demand, |rows|)
    requires ReducesToSum(total, hardcut, rows, demand, answers)
    ensures ReducesToSum(total, hardcut, rows, demand[..|demand| - 1], answers)
  {
    var n := |demand| - 1;
    forall m | 0 <= m < n - 1
      ensures answers[m] == SumAfter(total, hardcut, rows, demand[..n], answers, m + 1)
    {
      SumAfterPrefix(total, hardcut, rows, demand, answers, n, m + 1);
    }
  }

  /** A round on all ranks, each from its own view, is a round of `Take`. */
  lemma ViewsStep(total: nat, hardcut: nat, rows: seq<nat>, demand: seq<seq<nat>>, answers: seq<int>)
    requires |rows| > 0 && 0 < |demand| <= |answers| + 1 && Demands(demand, |rows|)
    ensures var n := |demand| - 1;
            Views(total, hardcut, rows, demand, answers) == Take(Views(total, hardcut, rows, demand[..n], answers),
              if n == 0 then FirstQuotas(total, hardcut, rows)
                else seq(|rows|, _ => Share(total, answers[n - 1], |rows|)), demand[n])
  {
    var n := |demand| - 1;
    var quotas := if n == 0 then FirstQuotas(total, hardcut, rows)
      else seq(|rows|, _ => Share(total, answers[n - 1], |rows|));
    var before := Views(total, hardcut, rows, demand[..n], answers);
    var after := Views(total, hardcut, rows, demand, answers);
    forall r | 0 <= r < |rows|
      ensures after[r] == before[r] + Min(quotas[r], demand[n][r])
    {
      ViewStep(total, hardcut, rows, demand, answers, r);
    }
  }

  ghost predicate ViewAfter(total: nat, hardcut: nat, rows: seq<nat>, demand: seq<seq<nat>>, answers: seq<int>, r: nat)
    requires r < |rows| && 0 < |demand| <= |answers| + 1 && Demands(demand, |rows|)
  {
    var n := |demand| - 1;
    RankCount(total, hardcut, |rows|, rows[r], RankDemand(demand, |rows|, r), answers) ==
      RankCount(total, hardcut, |rows|, rows[r], RankDemand(demand[..n], |rows|, r), answers) +
      Min(if n == 0 then FirstQuota(total, hardcut, |rows|, rows[r]) else Share(total, answers[n - 1], |rows|),
        demand[n][r])
  }

  lemma ViewStep(total: nat, hardcut: nat, rows: seq<nat>, demand: seq<seq<nat>>, answers: seq<int>, r: nat)
    requires r < |rows| && 0 < |demand| <= |answers| + 1 && Demands(demand, |rows|)
    ensures ViewAfter(total, hardcut, rows, demand, answers, r)
  {
    var n, d := |demand| - 1, RankDemand(demand, |rows|, r);
    assert d[..n] == RankDemand(demand[..n], |rows|, r) && d[n] == demand[n][r];
  }

  /** Ranks that each follow their own view, with a summing all-reduce between them, run the quota rounds. */
  lemma {:induction false} ViewsRunTheRounds(total: nat, hardcut: nat, rows: seq<nat>, demand: seq<seq<nat>>,
      answers: seq<int>)
    requires |rows| > 0 && |demand| <= |answers| + 1 && Demands(demand, |rows|)
    requires ReducesToSum(total, hardcut, rows, demand, answers)
    ensures Views(total, hardcut, rows, demand, answers) == Counts(total, hardcut, rows, demand)
    decreases |demand|
  {
    if demand != [] {
      var n := |demand| - 1;
      ReducesPrefix(total, hardcut, rows, demand, answers);
      ViewsRunTheRounds(total, hardcut, rows, demand[..n], answers);
      ViewsStep(total, hardcut, rows, demand, answers);
      if n > 0 {
        assert answers[n - 1] == SumAfter(total, hardcut, rows, demand, answers, n);
      }
    }
  }

  /**
    The partitioner's capacity over all ranks and rounds: cluster `k` ends within `total` exactly when the
    first round, whose size is known beforehand, does; with the hard cut at 1 it always does.
   */
  lemma PartitionCapacity(total: nat, hardcut: nat, rows: seq<nat>, demand: seq<seq<nat>>, answers: seq<int>)
    requires |rows| > 0 && 0 < |demand| <= |answers| + 1 && Demands(demand, |rows|)
    requires ReducesToSum(total, hardcut, rows, demand, answers)
    ensures Sum(Views(total, hardcut, rows, demand, answers)) <= total <==>
      FirstRound(total, hardcut, rows, demand[0]) <= total
    ensures hardcut == 1 ==> Sum(Views(total, hardcut, rows, demand, answers)) <= total
  {
    ViewsRunTheRounds(total, hardcut, rows, demand, answers);
    CapacityIff(total, hardcut, rows, demand);
    if hardcut == 1 {
      HardCutCapacity(total, rows, demand);
    }
  }
}
