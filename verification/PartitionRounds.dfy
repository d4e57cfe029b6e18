/** The assignment rounds on one rank and on all. */
module PartitionRounds {
  import opened Options
  import opened Sets
  import opened Sorting
  import opened ThreadSlices
  import opened HardAssign
  import opened NearestCenters
  import opened RoundLaw
  import Q = QuotaRounds

  // ----- labels and counts on one rank -----

  /** The cells of the first `c` columns that name cluster `k`. */
  ghost function Cells(labels: seq<seq<int>>, c: nat, k: int): set<(int, int)>
    requires forall i :: 0 <= i < |labels| ==> c <= |labels[i]|
  {
    set i, j | 0 <= i < |labels| && 0 <= j < c && labels[i][j] == k :: (i, j)
  }

  ghost predicate LabelsRanked(labels: seq<seq<int>>, dist: seq<seq<real>>, K: nat, c: nat)
    requires |labels| == |dist| && Matrix(dist, K) && c <= K
    requires forall i :: 0 <= i < |labels| ==> c <= |labels[i]|
  {
    forall i, j :: 0 <= i < |dist| && 0 <= j < c ==>
      labels[i][j] == NO_LABEL || labels[i][j] == Ranking(dist[i])[j].node
  }

  /** After `c` rounds: column `j` holds the `j`-th nearest center or nothing, and the counters count the cells. */
  ghost predicate Consistent(rank: RankState, c: nat)
    reads rank
  {
    && rank.Valid() && c <= rank.C
    && LabelsRanked(rank.labels, rank.dist, rank.K, c)
    && (forall k :: 0 <= k < rank.K ==> ColumnSum(rank.newCounts, k) == |Cells(rank.labels, c, k)|)
  }

  /** No row names the same cluster twice. */
  lemma NoRepeatedLabel(rank: RankState, c: nat, i: nat, j: nat, l: nat)
    requires Consistent(rank, c) && i < |rank.dist| && j < l < c
    requires rank.labels[i][j] != NO_LABEL
    ensures rank.labels[i][j] != rank.labels[i][l]
  {
    RankingFacts(rank.dist[i]);
  }

  /** A round adds to the cells of cluster `k` exactly the rows that keep it. */
  lemma CellsGrow(labels: seq<seq<int>>, cs: seq<Option<NodeDistPair>>, limits: seq<int>, c: nat, fill: bool, k: nat)
    requires |labels| == |cs| && |limits| <= NO_LABEL && InRange(cs, |limits|) && k < |limits|
    requires forall i :: 0 <= i < |labels| ==> c < |labels[i]|
    ensures var after := AssignedLabels(labels, cs, limits, c, fill);
            |Cells(after, c + 1, k)| == |Cells(labels, c, k)| + |KeptFor(cs, limits, k)|
  {
    var after := AssignedLabels(labels, cs, limits, c, fill);
    var added := InColumn(KeptFor(cs, limits, k), c);
    forall i, j | 0 <= i < |labels| && 0 <= j <= c
      ensures after[i][j] == if j < c then labels[i][j] else LabelFor(cs, limits, i)
    {
      assert after[i] == AssignedRow(labels[i], c, LabelFor(cs, limits, i), fill);
    }
    forall i | 0 <= i < |labels|
      ensures after[i][c] == k <==> i in KeptFor(cs, limits, k)
    {
    }
    assert Cells(after, c + 1, k) == Cells(labels, c, k) + added;
    assert Cells(labels, c, k) !! added;
    PairSize(KeptFor(cs, limits, k), c);
  }

  ghost function InColumn(rows: set<int>, c: int): set<(int, int)> {
    set i | i in rows :: (i, c)
  }

  lemma {:induction false} PairSize(rows: set<int>, c: int)
    ensures |InColumn(rows, c)| == |rows|
  {
    if rows != {} {
      var x := SomeElement(rows);
      PairSize(rows - {x}, c);
      assert InColumn(rows, c) == InColumn(rows - {x}, c) + {(x, c)};
    }
  }

  /** The round's effect on the cells of cluster `k`, from the limits alone. */
  lemma RoundCells(labels: seq<seq<int>>, cs: seq<Option<NodeDistPair>>, limits: seq<int>, c: nat, fill: bool)
    requires |labels| == |cs| && |limits| <= NO_LABEL && InRange(cs, |limits|)
    requires forall i :: 0 <= i < |labels| ==> c < |labels[i]|
    requires forall k :: 0 <= k < |limits| ==> limits[k] >= 0
    ensures forall k :: 0 <= k < |limits| ==>
      |Cells(AssignedLabels(labels, cs, limits, c, fill), c + 1, k)| == |Cells(labels, c, k)| +
        Min(limits[k], |Wants(cs, k)|)
  {
    forall k | 0 <= k < |limits|
      ensures |Cells(AssignedLabels(labels, cs, limits, c, fill), c + 1, k)| == |Cells(labels, c, k)| +
        Min(limits[k], |Wants(cs, k)|)
    {
      KeptCount(cs, limits, k);
      CellsGrow(labels, cs, limits, c, fill, k);
    }
  }

  /** One round on one rank keeps labels and counters consistent. */
  method RankRound(rank: RankState, c: nat, fill: bool)
    requires Consistent(rank, c) && c < rank.C
    requires forall k :: 0 <= k < rank.K ==> rank.limits[k] >= ColumnSum(rank.newCounts, k)
    modifies rank
    ensures Consistent(rank, c + 1) && InRange(rank.Asked(c), rank.K)
    ensures rank.labels == AssignedLabels(old(rank.labels), rank.Asked(c), rank.limits, c, fill)
    ensures forall k :: 0 <= k < rank.K ==>
      (rank.limits[k] == old(rank.limits)[k] - ColumnSum(old(rank.newCounts), k))
    ensures forall k :: 0 <= k < rank.K ==> rank.counts[k] == ColumnSum(rank.newCounts, k)
    ensures forall k :: 0 <= k < rank.K ==> (ColumnSum(rank.newCounts, k) == ColumnSum(old(rank.newCounts), k) +
      Min(old(rank.limits)[k] - ColumnSum(old(rank.newCounts), k), |Wants(rank.Asked(c), k)|))
  {
    rank.HardMultipleClustersAssign(c, fill);
    RoundCells(old(rank.labels), rank.Asked(c), rank.limits, c, fill);
  }

  // ----- all rounds on one rank -----

  /** How many rows of the rank ask for cluster `k`, round by round. */
  ghost function Demand(rank: RankState, k: nat, rounds: nat): seq<nat>
    requires Matrix(rank.dist, rank.K) && rounds <= rank.K
  {
    seq(rounds, c requires 0 <= c < rounds => |Wants(rank.Asked(c), k)|)
  }

  /** What the all-reduces after the first `rounds` rounds said about cluster `k`. */
  ghost function Answers(globals: seq<seq<int>>, K: nat, k: nat, rounds: nat): seq<int>
    requires rounds <= |globals| && Rectangular(globals, |globals|, K) && k < K
  {
    seq(rounds, c requires 0 <= c < rounds => globals[c][k])
  }

  method AddQuotas(rank: RankState, K: nat, total: nat, size: nat, global: seq<int>)
    requires rank.Valid() && rank.K == K == |global| && size > 0
    modifies rank`limits
    ensures rank.Valid()
    ensures forall k :: 0 <= k < K ==> rank.limits[k] == old(rank.limits)[k] + Q.Share(total, global[k], size)
  {
    for k := 0 to K
      invariant rank.Valid()
      invariant forall j :: 0 <= j < K ==>
        rank.limits[j] == old(rank.limits)[j] + if j < k then Q.Share(total, global[j], size) else 0
    {
      if total > global[k] {
        rank.limits := rank.limits[k := rank.limits[k] + (total - global[k]) / size];
      }
    }
  }

  method ClearRank(rank: RankState, K: nat, limit: nat)
    requires rank.Valid() && rank.K == K
    modifies rank`limits, rank`counts, rank`newCounts
    ensures Consistent(rank, 0)
    ensures forall k :: 0 <= k < K ==> ColumnSum(rank.newCounts, k) == 0 && rank.limits[k] == limit
  {
    rank.limits := seq(K, _ => limit);
    rank.counts := seq(K, _ => 0);
    rank.newCounts := seq(rank.T, _ => seq(K, _ => 0));
    forall k | 0 <= k < K
      ensures ColumnSum(rank.newCounts, k) == 0 == |Cells(rank.labels, 0, k)|
    {
      ZeroColumn(rank.newCounts, K, k);
      assert Cells(rank.labels, 0, k) == {};
    }
  }

  lemma {:induction false} ZeroColumn(m: seq<seq<int>>, K: nat, k: nat)
    requires Rectangular(m, |m|, K) && k < K && forall t :: 0 <= t < |m| ==> m[t][k] == 0
    ensures ColumnSum(m, k) == 0
  {
    if m != [] {
      ZeroColumn(m[..|m| - 1], K, k);
    }
  }

  /** After `c` rounds the rank has counted what its demand, its quotas and the answers so far allow. */
  ghost predicate Counted(rank: RankState, total: nat, hardcut: nat, size: nat, globals: seq<seq<int>>, c: nat)
    requires rank.Valid() && c <= rank.K && size > 0
    requires Rectangular(globals, |globals|, rank.K) && c <= |globals| + 1
    reads rank
  {
    forall k :: 0 <= k < rank.K ==>
      ColumnSum(rank.newCounts, k) == LocalCount(rank, total, hardcut, size, globals, k, c)
  }

  ghost function LocalCount(rank: RankState, total: nat, hardcut: nat, size: nat, globals: seq<seq<int>>, k: nat,
      c: nat): int
    requires Matrix(rank.dist, rank.K) && k < rank.K && c <= rank.K && size > 0
    requires Rectangular(globals, |globals|, rank.K) && c <= |globals| + 1
  {
    Q.RankCount(total, hardcut, size, |rank.dist|, Demand(rank, k, c), Answers(globals, rank.K, k, |globals|))
  }

  ghost function QuotaIn(rank: RankState, total: nat, hardcut: nat, size: nat, globals: seq<seq<int>>, k: nat,
      c: nat): int
    requires Rectangular(globals, |globals|, rank.K) && k < rank.K && c <= |globals| && size > 0
  {
    if c == 0 then Q.FirstQuota(total, hardcut, size, |rank.dist|) else Q.Share(total, globals[c - 1][k], size)
  }

  lemma LocalCountStep(rank: RankState, total: nat, hardcut: nat, size: nat, globals: seq<seq<int>>, k: nat, c: nat)
    requires Matrix(rank.dist, rank.K) && k < rank.K && c < rank.K && size > 0
    requires Rectangular(globals, |globals|, rank.K) && c <= |globals|
    ensures QuotaIn(rank, total, hardcut, size, globals, k, c) >= 0
    ensures LocalCount(rank, total, hardcut, size, globals, k, c + 1) ==
      LocalCount(rank, total, hardcut, size, globals, k, c) +
        Min(QuotaIn(rank, total, hardcut, size, globals, k, c), |Wants(rank.Asked(c), k)|)
  {
    Q.DivideShare(hardcut * total, size);
    if c > 0 && total > globals[c - 1][k] {
      Q.DivideShare(total - globals[c - 1][k], size);
    }
    assert Demand(rank, k, c + 1)[..c] == Demand(rank, k, c);
  }

  /** The limits round `c` starts with: what the rank already holds plus its quota. */
  ghost predicate LimitsSet(rank: RankState, total: nat, hardcut: nat, size: nat, globals: seq<seq<int>>, c: nat)
    requires rank.Valid() && Rectangular(globals, |globals|, rank.K) && c <= |globals| && size > 0
    reads rank
  {
    forall k :: 0 <= k < rank.K ==>
      rank.limits[k] == ColumnSum(rank.newCounts, k) + QuotaIn(rank, total, hardcut, size, globals, k, c)
  }

  // ----- what the labels record of the rounds -----

  /** What all ranks together may still give out in round `c`; nothing bounds the first round without the hard cut. */
  ghost function BudgetIn(total: nat, hardcut: nat, globals: seq<seq<int>>, K: nat, k: nat, c: nat): Option<int>
    requires Rectangular(globals, |globals|, K) && k < K && c <= |globals|
  {
    if c > 0 then Some(total - globals[c - 1][k]) else if hardcut == 0 then None else Some(hardcut * total)
  }

  lemma LargestShare(a: nat, n: nat, rows: nat)
    requires n > 0
    ensures IsShare(a / n, Some(a), n, rows)
  {
    assert a / n * n <= a < a / n * n + n;
    assert (a / n + 1) * n == a / n * n + n;
  }

  lemma QuotaIsShare(rank: RankState, total: nat, hardcut: nat, size: nat, globals: seq<seq<int>>, k: nat, c: nat)
    requires Rectangular(globals, |globals|, rank.K) && k < rank.K && c <= |globals| && size > 0
    ensures IsShare(QuotaIn(rank, total, hardcut, size, globals, k, c),
      BudgetIn(total, hardcut, globals, rank.K, k, c), size, |rank.dist|)
  {
    if c == 0 {
      LargestShare(hardcut * total, size, |rank.dist|);
    } else if total > globals[c - 1][k] {
      LargestShare(total - globals[c - 1][k], size, |rank.dist|);
    }
  }

  /** Column `j` of the rank's labels is what round `j` must give. */
  ghost predicate ColumnFair(labels: seq<seq<int>>, rank: RankState, total: nat, hardcut: nat, size: nat,
      globals: seq<seq<int>>, j: nat)
    requires LabelMatrix(labels, rank.dist, rank.K, j + 1) && Rectangular(globals, |globals|, rank.K) && j <= |globals|
  {
    && Named(labels, rank.dist, rank.closure, j)
    && forall k :: 0 <= k < rank.K ==>
      Fair(labels, rank.dist, rank.K, rank.closure, j, k, size, BudgetIn(total, hardcut, globals, rank.K, k, j))
  }

  /** The first `j` columns name every cluster as often as the rank has counted it after `j` rounds. */
  ghost predicate ColumnsCounted(labels: seq<seq<int>>, rank: RankState, total: nat, hardcut: nat, size: nat,
      globals: seq<seq<int>>, j: nat)
    requires LabelMatrix(labels, rank.dist, rank.K, j) && j <= rank.K && size > 0
    requires Rectangular(globals, |globals|, rank.K) && j <= |globals| + 1
  {
    forall k :: 0 <= k < rank.K ==> |Cells(labels, j, k)| == LocalCount(rank, total, hardcut, size, globals, k, j)
  }

  ghost predicate Recorded(labels: seq<seq<int>>, rank: RankState, total: nat, hardcut: nat, size: nat,
      globals: seq<seq<int>>, c: nat)
    requires LabelMatrix(labels, rank.dist, rank.K, c) && c <= rank.K && size > 0
    requires Rectangular(globals, |globals|, rank.K) && c <= |globals| + 1
  {
    && (forall j :: 0 <= j < c ==> ColumnFair(labels, rank, total, hardcut, size, globals, j))
    && (forall j :: 0 <= j <= c ==> ColumnsCounted(labels, rank, total, hardcut, size, globals, j))
  }

  lemma EarlierStays(labels: seq<seq<int>>, later: seq<seq<int>>, rank: RankState, total: nat, hardcut: nat, size: nat,
      globals: seq<seq<int>>, j: nat)
    requires LabelMatrix(labels, rank.dist, rank.K, j + 1) && LabelMatrix(later, rank.dist, rank.K, j + 1)
    requires forall i :: 0 <= i < |labels| ==> later[i][j] == labels[i][j]
    requires Rectangular(globals, |globals|, rank.K) && j <= |globals|
    requires ColumnFair(labels, rank, total, hardcut, size, globals, j)
    ensures ColumnFair(later, rank, total, hardcut, size, globals, j)
  {
    forall i | 0 <= i < |later|
      ensures later[i][j] == NO_LABEL || Asks(rank.dist[i], j, rank.closure, later[i][j])
    {
    }
    forall k | 0 <= k < rank.K
      ensures Fair(later, rank.dist, rank.K, rank.closure, j, k, size,
        BudgetIn(total, hardcut, globals, rank.K, k, j))
    {
      ColumnStays(labels, later, rank.dist, rank.K, rank.closure, j, k, size,
        BudgetIn(total, hardcut, globals, rank.K, k, j));
    }
  }

  lemma CellsStay(labels: seq<seq<int>>, later: seq<seq<int>>, rank: RankState, total: nat, hardcut: nat, size: nat,
      globals: seq<seq<int>>, j: nat)
    requires LabelMatrix(labels, rank.dist, rank.K, j) && LabelMatrix(later, rank.dist, rank.K, j)
    requires forall i :: 0 <= i < |labels| ==> later[i][..j] == labels[i][..j]
    requires j <= rank.K && size > 0 && Rectangular(globals, |globals|, rank.K) && j <= |globals| + 1
    requires ColumnsCounted(labels, rank, total, hardcut, size, globals, j)
    ensures ColumnsCounted(later, rank, total, hardcut, size, globals, j)
  {
    forall k | 0 <= k < rank.K
      ensures Cells(later, j, k) == Cells(labels, j, k)
    {
      forall i, h | 0 <= i < |labels| && 0 <= h < j
        ensures later[i][h] == labels[i][h]
      {
        assert later[i][..j][h] == labels[i][..j][h];
      }
    }
  }

  /** A round leaves the columns in front of its own. */
  lemma FrontStays(labels: seq<seq<int>>, cs: seq<Option<NodeDistPair>>, limits: seq<int>, c: nat, fill: bool, i: nat)
    requires |labels| == |cs| && InRange(cs, |limits|) && i < |labels|
    requires forall i :: 0 <= i < |labels| ==> c < |labels[i]|
    ensures var after := AssignedLabels(labels, cs, limits, c, fill);
            |after[i]| == |labels[i]| && forall j :: 0 <= j <= c ==> after[i][..j] == labels[i][..j]
  {
    var after := AssignedLabels(labels, cs, limits, c, fill);
    assert after[i] == AssignedRow(labels[i], c, LabelFor(cs, limits, i), fill);
    forall j | 0 <= j <= c
      ensures after[i][..j] == labels[i][..j]
    {
    }
  }

  /** One more round recorded. */
  lemma RecordRound(labels: seq<seq<int>>, rank: RankState, total: nat, hardcut: nat, size: nat,
      globals: seq<seq<int>>, limits: seq<int>, c: nat, fill: bool)
    requires c < rank.K <= NO_LABEL && size > 0 && LabelMatrix(labels, rank.dist, rank.K, c + 1)
    requires Rectangular(globals, |globals|, rank.K) && c <= |globals|
    requires |limits| == rank.K && InRange(rank.Asked(c), rank.K)
    requires forall k :: 0 <= k < rank.K ==> limits[k] == QuotaIn(rank, total, hardcut, size, globals, k, c)
    requires Recorded(labels, rank, total, hardcut, size, globals, c)
    ensures LabelMatrix(AssignedLabels(labels, rank.Asked(c), limits, c, fill), rank.dist, rank.K, c + 1)
    ensures var later := AssignedLabels(labels, rank.Asked(c), limits, c, fill);
      ColumnsCounted(later, rank, total, hardcut, size, globals, c + 1) ==>
        Recorded(later, rank, total, hardcut, size, globals, c + 1)
  {
    var later := AssignedLabels(labels, rank.Asked(c), limits, c, fill);
    forall i | 0 <= i < |labels|
      ensures |later[i]| == |labels[i]| && forall j :: 0 <= j <= c ==> later[i][..j] == labels[i][..j]
    {
      FrontStays(labels, rank.Asked(c), limits, c, fill, i);
    }
    assert LabelMatrix(later, rank.dist, rank.K, c + 1);
    forall j | 0 <= j < c
      ensures ColumnFair(later, rank, total, hardcut, size, globals, j)
    {
      forall i | 0 <= i < |labels|
        ensures later[i][j] == labels[i][j]
      {
        assert later[i][..c][j] == labels[i][..c][j];
      }
      EarlierStays(labels, later, rank, total, hardcut, size, globals, j);
    }
    forall j | 0 <= j <= c
      ensures ColumnsCounted(later, rank, total, hardcut, size, globals, j)
    {
      CellsStay(labels, later, rank, total, hardcut, size, globals, j);
    }
    NewColumnFair(labels, rank, total, hardcut, size, globals, limits, c, fill);
  }

  lemma NewColumnFair(labels: seq<seq<int>>, rank: RankState, total: nat, hardcut: nat, size: nat,
      globals: seq<seq<int>>, limits: seq<int>, c: nat, fill: bool)
    requires c < rank.K <= NO_LABEL && size > 0 && LabelMatrix(labels, rank.dist, rank.K, c + 1)
    requires Rectangular(globals, |globals|, rank.K) && c <= |globals|
    requires |limits| == rank.K && InRange(rank.Asked(c), rank.K)
    requires forall k :: 0 <= k < rank.K ==> limits[k] == QuotaIn(rank, total, hardcut, size, globals, k, c)
    ensures LabelMatrix(AssignedLabels(labels, rank.Asked(c), limits, c, fill), rank.dist, rank.K, c + 1)
    ensures ColumnFair(AssignedLabels(labels, rank.Asked(c), limits, c, fill), rank, total, hardcut, size, globals, c)
  {
    RoundNamed(labels, rank.dist, rank.K, rank.closure, limits, c, fill);
    forall k | 0 <= k < rank.K
      ensures Fair(AssignedLabels(labels, rank.Asked(c), limits, c, fill), rank.dist, rank.K, rank.closure, c, k, size,
        BudgetIn(total, hardcut, globals, rank.K, k, c))
    {
      QuotaIsShare(rank, total, hardcut, size, globals, k, c);
      RoundFair(labels, rank.dist, rank.K, rank.closure, limits, c, fill, k, size,
        BudgetIn(total, hardcut, globals, rank.K, k, c));
    }
  }

  /** The rank has run `c` rounds, and counters and labels show it. */
  ghost predicate Ran(rank: RankState, total: nat, hardcut: nat, size: nat, globals: seq<seq<int>>, c: nat)
    reads rank
  {
    && Consistent(rank, c) && size > 0 && Rectangular(globals, |globals|, rank.K) && c <= |globals| + 1
    && Counted(rank, total, hardcut, size, globals, c)
    && Recorded(rank.labels, rank, total, hardcut, size, globals, c)
  }

  /** The limits of round `c` are set as well. */
  ghost predicate Ready(rank: RankState, total: nat, hardcut: nat, size: nat, globals: seq<seq<int>>, c: nat)
    reads rank
  {
    Ran(rank, total, hardcut, size, globals, c) && c <= |globals| && LimitsSet(rank, total, hardcut, size, globals, c)
  }

  method CountedRound(rank: RankState, ghost total: nat, ghost hardcut: nat, ghost size: nat,
      ghost globals: seq<seq<int>>, c: nat, fill: bool)
    requires Ready(rank, total, hardcut, size, globals, c) && c < rank.C
    modifies rank
    ensures Ran(rank, total, hardcut, size, globals, c + 1)
    ensures forall k :: 0 <= k < rank.K ==> rank.counts[k] == ColumnSum(rank.newCounts, k)
  {
    forall k | 0 <= k < rank.K
      ensures QuotaIn(rank, total, hardcut, size, globals, k, c) >= 0
      ensures LocalCount(rank, total, hardcut, size, globals, k, c + 1) ==
        LocalCount(rank, total, hardcut, size, globals, k, c) +
          Min(QuotaIn(rank, total, hardcut, size, globals, k, c), |Wants(rank.Asked(c), k)|)
    {
      LocalCountStep(rank, total, hardcut, size, globals, k, c);
    }
    ghost var was := rank.labels;
    RankRound(rank, c, fill);
    RecordRound(was, rank, total, hardcut, size, globals, rank.limits, c, fill);
  }

  /** A round, the all-reduce, and the limits of the next round. */
  method RoundAndReduce(rank: RankState, total: nat, ghost hardcut: nat, size: nat, globals: seq<seq<int>>, c: nat)
    requires Ready(rank, total, hardcut, size, globals, c) && c < rank.C && c < |globals|
    modifies rank
    ensures Ready(rank, total, hardcut, size, globals, c + 1)
  {
    CountedRound(rank, total, hardcut, size, globals, c, false);
    NextLimits(rank, total, size, globals[c]);
    assert LimitsSet(rank, total, hardcut, size, globals, c + 1);
  }

  /** The limits become the local counts plus the new quotas; the counts become the global ones. */
  method NextLimits(rank: RankState, total: nat, size: nat, global: seq<int>)
    requires rank.Valid() && |global| == rank.K && size > 0
    modifies rank`limits, rank`counts
    ensures rank.Valid() && rank.counts == global
    ensures forall k :: 0 <= k < rank.K ==> rank.limits[k] == old(rank.counts)[k] + Q.Share(total, global[k], size)
  {
    rank.limits := rank.counts;
    rank.counts := global;
    AddQuotas(rank, rank.K, total, size, global);
  }

  method StartRank(rank: RankState, total: nat, hardcut: nat, size: nat, ghost globals: seq<seq<int>>)
    requires rank.Valid() && size > 0 && Rectangular(globals, |globals|, rank.K)
    modifies rank
    ensures Ready(rank, total, hardcut, size, globals, 0)
  {
    Q.DivideShare(hardcut * total, size);
    ClearRank(rank, rank.K, if hardcut == 0 then |rank.dist| else hardcut * total / size);
  }

  /**
    The assignment stage on one of `size` ranks. `globals[c]` is what the all-reduce answers after round `c`.
    Whatever it answers, no limit goes negative, labels and counters agree, and the local counts follow `RankCount`.
   */
  method AssignRank(rank: RankState, total: nat, hardcut: nat, size: nat, globals: seq<seq<int>>)
    requires rank.Valid() && rank.C >= 1 && size > 0
    requires Rectangular(globals, rank.C - 1, rank.K)
    modifies rank
    ensures Ran(rank, total, hardcut, size, globals, rank.C)
    ensures forall k :: 0 <= k < rank.K ==> rank.counts[k] == ColumnSum(rank.newCounts, k)
  {
    StartRank(rank, total, hardcut, size, globals);
    for c := 0 to rank.C - 1
      invariant Ready(rank, total, hardcut, size, globals, c)
    {
      RoundAndReduce(rank, total, hardcut, size, globals, c);
    }
    CountedRound(rank, total, hardcut, size, globals, rank.C - 1, true);
  }

  // ----- all ranks together -----

  ghost predicate Group(ranks: seq<RankState>, K: nat) {
    |ranks| > 0 && forall r :: 0 <= r < |ranks| ==> ranks[r].K == K && Matrix(ranks[r].dist, K)
  }

  ghost function RowCounts(ranks: seq<RankState>): seq<nat> {
    seq(|ranks|, r requires 0 <= r < |ranks| => |ranks[r].dist|)
  }

  /** The demand for cluster `k` round by round, over all ranks. */
  ghost function GroupDemand(ranks: seq<RankState>, K: nat, k: nat, rounds: nat): seq<seq<nat>>
    requires Group(ranks, K) && rounds <= K
  {
    seq(rounds, c requires 0 <= c < rounds =>
      seq(|ranks|, r requires 0 <= r < |ranks| => |Wants(ranks[r].Asked(c), k)|))
  }

  /** What the ranks count for cluster `k` together after `c` rounds. */
  ghost function GlobalCount(ranks: seq<RankState>, K: nat, total: nat, hardcut: nat, globals: seq<seq<int>>, k: nat,
      c: nat): int
    requires Group(ranks, K) && k < K && c <= K && Rectangular(globals, |globals|, K) && c <= |globals| + 1
  {
    Q.Sum(seq(|ranks|, r requires 0 <= r < |ranks| => LocalCount(ranks[r], total, hardcut, |ranks|, globals, k, c)))
  }

  lemma GlobalCountIsSum(ranks: seq<RankState>, K: nat, total: nat, hardcut: nat, globals: seq<seq<int>>, k: nat,
      C: nat, c: nat)
    requires Group(ranks, K) && k < K && c <= C <= K && Rectangular(globals, |globals|, K) && C <= |globals| + 1
    ensures GlobalCount(ranks, K, total, hardcut, globals, k, c) ==
      Q.SumAfter(total, hardcut, RowCounts(ranks), GroupDemand(ranks, K, k, C), Answers(globals, K, k, |globals|), c)
  {
    var demand := GroupDemand(ranks, K, k, C);
    forall r | 0 <= r < |ranks|
      ensures Q.RankDemand(demand[..c], |ranks|, r) == Demand(ranks[r], k, c)
    {
    }
    assert seq(|ranks|, r requires 0 <= r < |ranks| => LocalCount(ranks[r], total, hardcut, |ranks|, globals, k, c))
      == Q.Views(total, hardcut, RowCounts(ranks), demand[..c], Answers(globals, K, k, |globals|));
  }

  /**
    When the all-reduces really sum what the ranks hold, cluster `k` ends within `total` exactly when the rows
    that ask for it first, cut to the first quotas, do; with the hard cut at 1 it always does.
   */
  lemma GroupCapacity(ranks: seq<RankState>, K: nat, total: nat, hardcut: nat, globals: seq<seq<int>>, k: nat, C: nat)
    requires Group(ranks, K) && k < K && 1 <= C <= K && Rectangular(globals, C - 1, K)
    requires forall c :: 0 <= c < C - 1 ==> globals[c][k] == GlobalCount(ranks, K, total, hardcut, globals, k, c + 1)
    ensures GlobalCount(ranks, K, total, hardcut, globals, k, C) <= total <==>
      Q.FirstRound(total, hardcut, RowCounts(ranks), GroupDemand(ranks, K, k, 1)[0]) <= total
    ensures hardcut == 1 ==> GlobalCount(ranks, K, total, hardcut, globals, k, C) <= total
  {
    var rows, demand, answers := RowCounts(ranks), GroupDemand(ranks, K, k, C), Answers(globals, K, k, |globals|);
    GroupReduces(ranks, K, total, hardcut, globals, k, C);
    Q.PartitionCapacity(total, hardcut, rows, demand, answers);
    GlobalCountIsSum(ranks, K, total, hardcut, globals, k, C, C);
    assert demand[..C] == demand;
    assert demand[0] == GroupDemand(ranks, K, k, 1)[0];
  }

  /** Seen cluster by cluster, the ranks and their all-reduces run the quota rounds. */
  lemma GroupReduces(ranks: seq<RankState>, K: nat, total: nat, hardcut: nat, globals: seq<seq<int>>, k: nat, C: nat)
    requires Group(ranks, K) && k < K && 1 <= C <= K && Rectangular(globals, C - 1, K)
    requires forall c :: 0 <= c < C - 1 ==> globals[c][k] == GlobalCount(ranks, K, total, hardcut, globals, k, c + 1)
    ensures Q.Demands(GroupDemand(ranks, K, k, C), |ranks|)
    ensures Q.ReducesToSum(total, hardcut, RowCounts(ranks), GroupDemand(ranks, K, k, C),
      Answers(globals, K, k, |globals|))
  {
    var rows, demand, answers := RowCounts(ranks), GroupDemand(ranks, K, k, C), Answers(globals, K, k, |globals|);
    forall c | 0 <= c < C - 1
      ensures answers[c] == Q.SumAfter(total, hardcut, rows, demand, answers, c + 1)
    {
      GlobalCountIsSum(ranks, K, total, hardcut, globals, k, C, c + 1);
    }
  }
}
