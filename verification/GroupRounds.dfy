/** All ranks in lock step, from the data to the files. */
module GroupRounds {
  import opened ThreadSlices
  import opened HardAssign
  import opened PartitionRounds
  import opened Options
  import opened NearestCenters
  import opened RoundLaw
  import R = RecordShipping
  import Q = QuotaRounds

  /** What is fixed for the whole stage; `globals` are the answers of its all-reduces, round by round. */
  datatype Stage = Stage(K: nat, C: nat, total: nat, hardcut: nat, size: nat, globals: seq<seq<int>>)
  {
    ghost predicate Valid() {
      1 <= C <= K && size > 0 && Rectangular(globals, C - 1, K)
    }
  }

  ghost predicate Member(rank: RankState, x: Stage)
    reads rank
  {
    rank.Valid() && rank.K == x.K && rank.C == x.C
  }

  /** The rank is about to run round `c`. */
  ghost predicate Before(rank: RankState, x: Stage, c: nat)
    reads rank
  {
    x.Valid() && c < x.C && Member(rank, x) && Ready(rank, x.total, x.hardcut, x.size, x.globals, c)
  }

  /** The rank has run round `c` and holds its local counts. */
  ghost predicate After(rank: RankState, x: Stage, c: nat)
    reads rank
  {
    && x.Valid() && c < x.C && Member(rank, x) && Ran(rank, x.total, x.hardcut, x.size, x.globals, c + 1)
    && forall k :: 0 <= k < x.K ==> rank.counts[k] == ColumnSum(rank.newCounts, k)
  }

  ghost predicate AllBefore(ranks: seq<RankState>, x: Stage, c: nat)
    reads ranks
  {
    forall r :: 0 <= r < |ranks| ==> Before(ranks[r], x, c)
  }

  ghost predicate AllAfter(ranks: seq<RankState>, x: Stage, c: nat)
    reads ranks
  {
    forall r :: 0 <= r < |ranks| ==> After(ranks[r], x, c)
  }

  ghost predicate Separate(ranks: seq<RankState>) {
    forall r, q :: 0 <= r < |ranks| && 0 <= q < |ranks| && r != q ==> ranks[r] != ranks[q]
  }

  // ----- the answers -----

  /** The first `n` answers are the sums of what the ranks hold after each of those rounds. */
  ghost predicate Sums(ranks: seq<RankState>, x: Stage, n: nat)
    requires Group(ranks, x.K) && x.C <= x.K && n <= |x.globals| < x.C && Rectangular(x.globals, |x.globals|, x.K)
  {
    forall c, k :: 0 <= c < n && 0 <= k < x.K ==> SumIs(ranks, x, c, k)
  }

  ghost predicate SumIs(ranks: seq<RankState>, x: Stage, c: nat, k: nat)
    requires Group(ranks, x.K) && x.C <= x.K && c < |x.globals| < x.C && Rectangular(x.globals, |x.globals|, x.K)
      && k < x.K
  {
    x.globals[c][k] == GlobalCount(ranks, x.K, x.total, x.hardcut, x.globals, k, c + 1)
  }

  /** What the ranks hold after a round does not depend on answers to come. */
  lemma EarlierAnswers(ranks: seq<RankState>, x: Stage, more: seq<int>, k: nat, c: nat)
    requires Group(ranks, x.K) && k < x.K && c <= x.K && Rectangular(x.globals, |x.globals|, x.K) && |more| == x.K
    requires c <= |x.globals| + 1
    ensures GlobalCount(ranks, x.K, x.total, x.hardcut, x.globals + [more], k, c) ==
      GlobalCount(ranks, x.K, x.total, x.hardcut, x.globals, k, c)
  {
    var longer := x.globals + [more];
    forall r | 0 <= r < |ranks|
      ensures LocalCount(ranks[r], x.total, x.hardcut, |ranks|, longer, k, c) ==
        LocalCount(ranks[r], x.total, x.hardcut, |ranks|, x.globals, k, c)
    {
      var answers := Answers(longer, x.K, k, |longer|);
      assert answers[..|x.globals|] == Answers(x.globals, x.K, k, |x.globals|);
      Q.AnswersPrefix(x.total, x.hardcut, |ranks|, |ranks[r].dist|, Demand(ranks[r], k, c), answers, |x.globals|);
    }
    assert seq(|ranks|, r requires 0 <= r < |ranks| => LocalCount(ranks[r], x.total, x.hardcut, |ranks|, longer, k, c))
      == seq(|ranks|, r requires 0 <= r < |ranks| => LocalCount(ranks[r], x.total, x.hardcut, |ranks|, x.globals, k,
        c));
  }

  /** Summing all-reduces have answers, whatever the ranks hold. */
  lemma {:induction false} AnswersExist(ranks: seq<RankState>, K: nat, C: nat, total: nat, hardcut: nat, n: nat)
    returns (x: Stage)
    requires Group(ranks, K) && n < C <= K
    ensures x == Stage(K, C, total, hardcut, |ranks|, x.globals) && Rectangular(x.globals, n, K) && Sums(ranks, x, n)
  {
    if n == 0 {
      x := Stage(K, C, total, hardcut, |ranks|, []);
    } else {
      var y := AnswersExist(ranks, K, C, total, hardcut, n - 1);
      var more := seq(K, k requires 0 <= k < K => GlobalCount(ranks, K, total, hardcut, y.globals, k, n));
      x := y.(globals := y.globals + [more]);
      forall c, k | 0 <= c < n && 0 <= k < K
        ensures SumIs(ranks, x, c, k)
      {
        EarlierAnswers(ranks, y, more, k, c + 1);
        assert c < n - 1 ==> SumIs(ranks, y, c, k);
      }
    }
  }

  // ----- the all-reduce -----

  /** What the first `n` ranks hold of cluster `k`. */
  ghost function HeldBy(ranks: seq<RankState>, k: nat, n: nat): int
    requires n <= |ranks| && forall r :: 0 <= r < n ==> k < |ranks[r].counts|
    reads ranks
  {
    if n == 0 then 0 else HeldBy(ranks, k, n - 1) + ranks[n - 1].counts[k]
  }

  lemma {:induction false} HeldIsSum(ranks: seq<RankState>, k: nat, n: nat, s: seq<int>)
    requires n == |s| <= |ranks| && forall r :: 0 <= r < n ==> k < |ranks[r].counts| && s[r] == ranks[r].counts[k]
    ensures HeldBy(ranks, k, n) == Q.Sum(s)
  {
    if n > 0 {
      HeldIsSum(ranks, k, n - 1, s[..n - 1]);
    }
  }

  /** `MPI_Allreduce` over the local counts. */
  method AllReduce(ranks: seq<RankState>, K: nat) returns (global: seq<int>)
    requires forall r :: 0 <= r < |ranks| ==> |ranks[r].counts| == K
    ensures |global| == K && forall k :: 0 <= k < K ==> global[k] == HeldBy(ranks, k, |ranks|)
  {
    global := [];
    for k := 0 to K
      invariant |global| == k && forall j :: 0 <= j < k ==> global[j] == HeldBy(ranks, j, |ranks|)
    {
      var sum := 0;
      for r := 0 to |ranks|
        invariant sum == HeldBy(ranks, k, r)
      {
        sum := sum + ranks[r].counts[k];
      }
      global := global + [sum];
    }
  }

  /** After a round the ranks hold together what the quota rounds say. */
  lemma HeldIsGlobal(ranks: seq<RankState>, x: Stage, c: nat, k: nat)
    requires Group(ranks, x.K) && x.Valid() && c < x.C && x.size == |ranks| && AllAfter(ranks, x, c) && k < x.K
    requires forall r :: 0 <= r < |ranks| ==> |ranks[r].counts| == x.K
    ensures HeldBy(ranks, k, |ranks|) == GlobalCount(ranks, x.K, x.total, x.hardcut, x.globals, k, c + 1)
  {
    assert After(ranks[0], x, c);
    var s := seq(|ranks|,
      r requires 0 <= r < |ranks| => LocalCount(ranks[r], x.total, x.hardcut, |ranks|, x.globals, k, c + 1));
    forall r | 0 <= r < |ranks|
      ensures k < |ranks[r].counts| && s[r] == ranks[r].counts[k]
    {
      assert After(ranks[r], x, c);
    }
    HeldIsSum(ranks, k, |ranks|, s);
  }

  // ----- the stage -----

  method RunOne(rank: RankState, ghost x: Stage, c: nat, fill: bool)
    requires Before(rank, x, c)
    modifies rank
    ensures After(rank, x, c)
  {
    CountedRound(rank, x.total, x.hardcut, x.size, x.globals, c, fill);
  }

  /** Round `c` on every rank; the ranks do not touch each other. */
  method RunRound(ranks: seq<RankState>, ghost x: Stage, c: nat, fill: bool)
    requires Separate(ranks) && AllBefore(ranks, x, c)
    modifies ranks
    ensures AllAfter(ranks, x, c)
  {
    for r := 0 to |ranks|
      invariant forall q :: r <= q < |ranks| ==> unchanged(ranks[q])
      invariant forall q :: 0 <= q < r ==> After(ranks[q], x, c)
    {
      RunOne(ranks[r], x, c, fill);
    }
  }

  /** One rank sets its limits from the answer. */
  method SetLimits(rank: RankState, ghost x: Stage, total: nat, size: nat, global: seq<int>, c: nat)
    requires After(rank, x, c) && c + 1 < x.C && global == x.globals[c] && total == x.total && size == x.size
    modifies rank
    ensures Before(rank, x, c + 1)
  {
    NextLimits(rank, total, size, global);
  }

  method SetAllLimits(ranks: seq<RankState>, ghost x: Stage, total: nat, size: nat, global: seq<int>, c: nat)
    requires Separate(ranks) && AllAfter(ranks, x, c)
    requires x.Valid() && c + 1 < x.C && global == x.globals[c] && total == x.total && size == x.size
    modifies ranks
    ensures AllBefore(ranks, x, c + 1)
  {
    for r := 0 to |ranks|
      invariant forall q :: r <= q < |ranks| ==> unchanged(ranks[q])
      invariant forall q :: 0 <= q < r ==> Before(ranks[q], x, c + 1)
    {
      SetLimits(ranks[r], x, total, size, global, c);
    }
  }

  method StartOne(rank: RankState, ghost x: Stage, total: nat, hardcut: nat, size: nat)
    requires x.Valid() && total == x.total && hardcut == x.hardcut && size == x.size && Member(rank, x)
    modifies rank
    ensures Before(rank, x, 0)
  {
    StartRank(rank, total, hardcut, size, x.globals);
  }

  method StartAll(ranks: seq<RankState>, ghost x: Stage, total: nat, hardcut: nat, size: nat)
    requires Separate(ranks) && x.Valid() && total == x.total && hardcut == x.hardcut && size == x.size
    requires forall r :: 0 <= r < |ranks| ==> Member(ranks[r], x)
    modifies ranks
    ensures AllBefore(ranks, x, 0)
  {
    for r := 0 to |ranks|
      invariant forall q :: 0 <= q < r ==> Before(ranks[q], x, 0)
      invariant forall q :: r <= q < |ranks| ==> unchanged(ranks[q])
    {
      StartOne(ranks[r], x, total, hardcut, size);
    }
  }

  /** All ranks and their all-reduce between two rounds. */
  method RoundOfAll(ranks: seq<RankState>, ghost x: Stage, total: nat, size: nat, c: nat)
    requires Separate(ranks) && Group(ranks, x.K) && size == |ranks| == x.size && total == x.total
    requires x.Valid() && Sums(ranks, x, x.C - 1) && c + 1 < x.C && AllBefore(ranks, x, c)
    modifies ranks
    ensures AllBefore(ranks, x, c + 1)
  {
    RunRound(ranks, x, c, false);
    assert After(ranks[0], x, c);
    assert forall r :: 0 <= r < |ranks| ==> After(ranks[r], x, c);
    var global := AllReduce(ranks, ranks[0].K);
    forall k | 0 <= k < x.K
      ensures global[k] == x.globals[c][k]
    {
      HeldIsGlobal(ranks, x, c, k);
      assert SumIs(ranks, x, c, k);
    }
    assert global == x.globals[c];
    SetAllLimits(ranks, x, total, size, global, c);
  }

  /** The capacity, once all ranks are through. */
  lemma CapacityAtEnd(ranks: seq<RankState>, x: Stage, k: nat)
    requires forall r :: 0 <= r < |ranks| ==> |ranks[r].counts| == x.K
    requires Group(ranks, x.K) && |ranks| == x.size && x.Valid() && Sums(ranks, x, x.C - 1)
      && AllAfter(ranks, x, x.C - 1) && k < x.K
    ensures HeldBy(ranks, k, |ranks|) <= x.total <==>
      Q.FirstRound(x.total, x.hardcut, RowCounts(ranks), GroupDemand(ranks, x.K, k, 1)[0]) <= x.total
    ensures x.hardcut == 1 ==> HeldBy(ranks, k, |ranks|) <= x.total
  {
    forall c | 0 <= c < x.C - 1
      ensures x.globals[c][k] == GlobalCount(ranks, x.K, x.total, x.hardcut, x.globals, k, c + 1)
    {
      assert SumIs(ranks, x, c, k);
    }
    HeldIsGlobal(ranks, x, x.C - 1, k);
    GroupCapacity(ranks, x.K, x.total, x.hardcut, x.globals, k, x.C);
  }

  /** The rank is through all rounds: its labels are consistent and it has counted the cells that name each cluster. */
  ghost predicate Through(rank: RankState, K: nat, C: nat)
    reads rank
  {
    && rank.K == K && rank.C == C && Consistent(rank, C) && |rank.counts| == K
    && forall k :: 0 <= k < K ==> rank.counts[k] == |Cells(rank.labels, C, k)|
  }

  ghost predicate AllThrough(ranks: seq<RankState>, K: nat, C: nat)
    reads ranks
  {
    forall r :: 0 <= r < |ranks| ==> Through(ranks[r], K, C)
  }

  /** `total` bounds cluster `k` over all ranks. */
  ghost predicate Within(ranks: seq<RankState>, K: nat, C: nat, total: nat, k: nat)
    requires AllThrough(ranks, K, C) && k < K
    reads ranks
  {
    HeldBy(ranks, k, |ranks|) <= total
  }

  /** The rows that ask for cluster `k` first, cut to the first quotas, are no more than `total`. */
  ghost predicate FirstWithin(ranks: seq<RankState>, K: nat, total: nat, hardcut: nat, k: nat)
    requires Group(ranks, K) && k < K
  {
    Q.FirstRound(total, hardcut, RowCounts(ranks), GroupDemand(ranks, K, k, 1)[0]) <= total
  }

  // ----- what the labels of all ranks must be -----

  /** How often the first `n` ranks name cluster `k` in their first `j` columns. */
  ghost function NamedBefore(ranks: seq<RankState>, j: nat, k: nat, n: nat): int
    requires n <= |ranks| && forall r :: 0 <= r < n ==> RowsHave(ranks[r], j)
    reads ranks
  {
    if n == 0 then 0
    else
      assert RowsHave(ranks[n - 1], j);
      NamedBefore(ranks, j, k, n - 1) + |Cells(ranks[n - 1].labels, j, k)|
  }

  ghost predicate RowsHave(rank: RankState, columns: nat)
    reads rank
  {
    forall i :: 0 <= i < |rank.labels| ==> columns <= |rank.labels[i]|
  }

  /** What the ranks may give out of cluster `k` in round `j`, read off the labels of the rounds before. */
  ghost function Budget(ranks: seq<RankState>, total: nat, hardcut: nat, j: nat, k: nat): Option<int>
    requires forall r :: 0 <= r < |ranks| ==> RowsHave(ranks[r], j)
    reads ranks
  {
    if j > 0 then Some(total - NamedBefore(ranks, j, k, |ranks|))
    else if hardcut == 0 then None else Some(hardcut * total)
  }

  /** Rank `r` gives in every column what its share of the budget holds, the nearest rows first. */
  ghost predicate RankFair(ranks: seq<RankState>, K: nat, total: nat, hardcut: nat, j: nat, r: nat)
    requires r < |ranks| && LabelMatrix(ranks[r].labels, ranks[r].dist, K, j + 1)
    requires forall r :: 0 <= r < |ranks| ==> RowsHave(ranks[r], j)
    reads ranks
  {
    && Named(ranks[r].labels, ranks[r].dist, ranks[r].closure, j)
    && forall k :: 0 <= k < K ==>
      Fair(ranks[r].labels, ranks[r].dist, K, ranks[r].closure, j, k, |ranks|, Budget(ranks, total, hardcut, j, k))
  }

  ghost predicate AllFair(ranks: seq<RankState>, K: nat, C: nat, total: nat, hardcut: nat)
    requires AllThrough(ranks, K, C)
    reads ranks
  {
    ThroughRows(ranks, K, C);
    forall r, j :: 0 <= r < |ranks| && 0 <= j < C ==> RankFair(ranks, K, total, hardcut, j, r)
  }

  lemma ThroughRows(ranks: seq<RankState>, K: nat, C: nat)
    requires AllThrough(ranks, K, C)
    ensures forall r, j :: 0 <= r < |ranks| && 0 <= j <= C ==>
      LabelMatrix(ranks[r].labels, ranks[r].dist, K, j) && RowsHave(ranks[r], j)
  {
    forall r, j | 0 <= r < |ranks| && 0 <= j <= C
      ensures LabelMatrix(ranks[r].labels, ranks[r].dist, K, j) && RowsHave(ranks[r], j)
    {
      assert Through(ranks[r], K, C);
    }
  }

  lemma AllFairAtEnd(ranks: seq<RankState>, x: Stage)
    requires Group(ranks, x.K) && x.Valid() && x.size == |ranks| && AllAfter(ranks, x, x.C - 1)
    requires Sums(ranks, x, x.C - 1) && AllThrough(ranks, x.K, x.C)
    ensures AllFair(ranks, x.K, x.C, x.total, x.hardcut)
  {
    ThroughRows(ranks, x.K, x.C);
    forall r, j | 0 <= r < |ranks| && 0 <= j < x.C
      ensures RankFair(ranks, x.K, x.total, x.hardcut, j, r)
    {
      FairAtEnd(ranks, x, j, r);
    }
  }

  lemma ThroughAtEnd(ranks: seq<RankState>, x: Stage)
    requires x.Valid() && AllAfter(ranks, x, x.C - 1)
    ensures AllThrough(ranks, x.K, x.C)
  {
    forall r | 0 <= r < |ranks|
      ensures Through(ranks[r], x.K, x.C)
    {
      assert After(ranks[r], x, x.C - 1);
    }
  }

  lemma {:induction false} NamedIsSum(ranks: seq<RankState>, j: nat, k: nat, n: nat, s: seq<int>)
    requires n == |s| <= |ranks|
    requires forall r :: 0 <= r < n ==> RowsHave(ranks[r], j) && s[r] == |Cells(ranks[r].labels, j, k)|
    ensures NamedBefore(ranks, j, k, n) == Q.Sum(s)
  {
    if n > 0 {
      NamedIsSum(ranks, j, k, n - 1, s[..n - 1]);
    }
  }

  /** What an all-reduce answers is what the labels of the rounds so far name. */
  lemma NamedIsGlobal(ranks: seq<RankState>, x: Stage, j: nat, k: nat)
    requires Group(ranks, x.K) && x.Valid() && x.size == |ranks| && AllAfter(ranks, x, x.C - 1) && k < x.K && j < x.C
    requires forall r :: 0 <= r < |ranks| ==> RowsHave(ranks[r], j)
    ensures NamedBefore(ranks, j, k, |ranks|) == GlobalCount(ranks, x.K, x.total, x.hardcut, x.globals, k, j)
  {
    var s := seq(|ranks|,
      r requires 0 <= r < |ranks| => LocalCount(ranks[r], x.total, x.hardcut, |ranks|, x.globals, k, j));
    forall r | 0 <= r < |ranks|
      ensures s[r] == |Cells(ranks[r].labels, j, k)|
    {
      assert After(ranks[r], x, x.C - 1);
      assert ColumnsCounted(ranks[r].labels, ranks[r], x.total, x.hardcut, x.size, x.globals, j);
    }
    NamedIsSum(ranks, j, k, |ranks|, s);
  }

  lemma FairAtEnd(ranks: seq<RankState>, x: Stage, j: nat, r: nat)
    requires Group(ranks, x.K) && x.Valid() && x.size == |ranks| && AllAfter(ranks, x, x.C - 1)
    requires Sums(ranks, x, x.C - 1) && j < x.C && r < |ranks|
    requires forall r :: 0 <= r < |ranks| ==> RowsHave(ranks[r], j)
    ensures LabelMatrix(ranks[r].labels, ranks[r].dist, x.K, j + 1)
    ensures RankFair(ranks, x.K, x.total, x.hardcut, j, r)
  {
    assert After(ranks[r], x, x.C - 1);
    assert ColumnFair(ranks[r].labels, ranks[r], x.total, x.hardcut, x.size, x.globals, j);
    forall k | 0 <= k < x.K
      ensures Budget(ranks, x.total, x.hardcut, j, k) == BudgetIn(x.total, x.hardcut, x.globals, x.K, k, j)
    {
      if j > 0 {
        NamedIsGlobal(ranks, x, j, k);
        assert SumIs(ranks, x, j - 1, k);
      }
    }
  }

  /** All rounds on all ranks. */
  method RunRounds(ranks: seq<RankState>, ghost x: Stage, C: nat, total: nat, hardcut: nat)
    requires Separate(ranks) && Group(ranks, x.K) && |ranks| == x.size && total == x.total && hardcut == x.hardcut
      && C == x.C
    requires x.Valid() && Sums(ranks, x, x.C - 1)
    requires forall r :: 0 <= r < |ranks| ==> Member(ranks[r], x)
    modifies ranks
    ensures AllAfter(ranks, x, x.C - 1)
  {
    StartAll(ranks, x, total, hardcut, |ranks|);
    for c := 0 to C - 1
      invariant AllBefore(ranks, x, c)
    {
      RoundOfAll(ranks, x, total, |ranks|, c);
    }
    RunRound(ranks, x, C - 1, true);
  }

  /**
    The whole assignment stage over all ranks: afterwards every rank has counted exactly its label cells, and a cluster
    has ended within `total` exactly when the rows that ask for it first, cut to the first quotas, do; with the hard
    cut at 1 every cluster has.
   */
  method AssignGroup(ranks: seq<RankState>, K: nat, C: nat, total: nat, hardcut: nat) returns (global: seq<int>)
    requires Separate(ranks) && Group(ranks, K) && 1 <= C <= K
    requires forall r :: 0 <= r < |ranks| ==> ranks[r].Valid() && ranks[r].C == C
    modifies ranks
    ensures AllThrough(ranks, K, C)
    ensures forall k :: 0 <= k < K ==> (Within(ranks, K, C, total, k) <==> FirstWithin(ranks, K, total, hardcut, k))
    ensures hardcut == 1 ==> forall k :: 0 <= k < K ==> Within(ranks, K, C, total, k)
    ensures AllFair(ranks, K, C, total, hardcut)
    ensures IsTotal(ranks, K, C, global)
  {
    ghost var x := AnswersExist(ranks, K, C, total, hardcut, C - 1);
    RunRounds(ranks, x, C, total, hardcut);
    ThroughAtEnd(ranks, x);
    AllFairAtEnd(ranks, x);
    global := AllReduce(ranks, K);
    forall k | 0 <= k < K
      ensures Within(ranks, K, C, total, k) <==> FirstWithin(ranks, K, total, hardcut, k)
      ensures hardcut == 1 ==> Within(ranks, K, C, total, k)
    {
      CapacityAtEnd(ranks, x, k);
    }
  }

  /** The final all-reduce: what the ranks counted together. */
  ghost predicate IsTotal(ranks: seq<RankState>, K: nat, C: nat, global: seq<int>)
    requires AllThrough(ranks, K, C)
    reads ranks
  {
    |global| == K && forall k :: 0 <= k < K ==> global[k] == HeldBy(ranks, k, |ranks|)
  }

  // ----- the files -----

  ghost predicate FirstThenRow(a: (nat, nat), b: (nat, nat)) {
    a.0 < b.0 || (a.0 == b.0 && a.1 < b.1)
  }

  ghost predicate AllReady(ranks: seq<RankState>, k: nat)
    reads ranks
  {
    forall r :: 0 <= r < |ranks| ==> R.Ready(ranks[r], k)
  }

  /** The records of a cluster are exactly the (rank, row) pairs whose labels name it. */
  lemma {:induction false} FileMembers(ranks: seq<RankState>, k: nat, n: nat, r: nat, i: nat)
    requires n <= |ranks| && AllReady(ranks, k)
    ensures (r, i) in R.AllRecords(ranks, k, n) <==> r < n && i < |ranks[r].dist| && k in ranks[r].labels[i]
  {
    if n > 0 {
      FileMembers(ranks, k, n - 1, r, i);
      assert R.Ready(ranks[n - 1], k);
      R.ShippedRecords(ranks[n - 1], k);
      TaggedMembers(n - 1, R.Records(ranks[n - 1].labels, k), r, i);
    }
  }

  lemma TaggedMembers(rank: nat, rows: seq<nat>, r: nat, i: nat)
    ensures (r, i) in R.Tagged(rank, rows) <==> r == rank && i in rows
  {
    if r == rank && i in rows {
      var j :| 0 <= j < |rows| && rows[j] == i;
      assert R.Tagged(rank, rows)[j] == (r, i);
    }
  }

  /** They come rank by rank and in row order, so none comes twice. */
  lemma {:induction false} FileIncreases(ranks: seq<RankState>, k: nat, n: nat)
    requires n <= |ranks| && AllReady(ranks, k)
    ensures forall a, b :: 0 <= a < b < |R.AllRecords(ranks, k, n)| ==>
      FirstThenRow(R.AllRecords(ranks, k, n)[a], R.AllRecords(ranks, k, n)[b])
    ensures forall a :: 0 <= a < |R.AllRecords(ranks, k, n)| ==> R.AllRecords(ranks, k, n)[a].0 < n
  {
    if n > 0 {
      FileIncreases(ranks, k, n - 1);
      assert R.Ready(ranks[n - 1], k);
      R.ShippedRecords(ranks[n - 1], k);
    }
  }

  /** The header is the all-reduced count, and the file holds that many records. */
  ghost predicate FileOk(ranks: seq<RankState>, k: nat, header: int, file: seq<(nat, nat)>)
    reads ranks
  {
    header == |file| && file == R.AllRecords(ranks, k, |ranks|)
  }

  /** The all-reduce sums what the ranks then announce to the owner of the cluster. */
  lemma AnnouncedIsHeld(ranks: seq<RankState>, k: nat)
    requires AllReady(ranks, k) && forall r :: 0 <= r < |ranks| ==> k < |ranks[r].counts|
    ensures forall r :: 0 <= r < |ranks| ==> R.Ready(ranks[r], k)
    ensures HeldBy(ranks, k, |ranks|) == Q.Sum(R.Announced(ranks, k))
  {
    HeldIsSum(ranks, k, |ranks|, R.Announced(ranks, k));
  }

  method WriteFile(ranks: seq<RankState>, k: nat, global: int) returns (header: int, file: seq<(nat, nat)>)
    requires |ranks| > 0 && AllReady(ranks, k)
    requires (forall r :: 0 <= r < |ranks| ==> k < |ranks[r].counts|) && global == HeldBy(ranks, k, |ranks|)
    ensures FileOk(ranks, k, header, file) && header == global
  {
    AnnouncedIsHeld(ranks, k);
    header, file := R.WriteCluster(ranks, k % |ranks|, k, global);
  }

  /** The files, cluster by cluster, each on its owner. */
  method WriteFiles(ranks: seq<RankState>, K: nat, C: nat, global: seq<int>)
    returns (headers: seq<int>, files: seq<seq<(nat, nat)>>)
    requires |ranks| > 0 && AllThrough(ranks, K, C) && IsTotal(ranks, K, C, global)
    ensures |headers| == |files| == |global| == K
    ensures forall k :: 0 <= k < K ==> FileOk(ranks, k, headers[k], files[k]) && headers[k] == global[k]
  {
    headers, files := [], [];
    for k := 0 to K
      invariant |headers| == |files| == k
      invariant forall j :: 0 <= j < k ==> FileOk(ranks, j, headers[j], files[j]) && headers[j] == global[j]
    {
      var header, file := WriteFile(ranks, k, global[k]);
      headers, files := headers + [header], files + [file];
    }
  }

  /**
    Assignment and files together. Every cluster's header counts the records behind it; a file holds no more than
    `total` records exactly when the rows that ask for the cluster first, cut to the first quotas, are no more; with
    the hard cut at 1 no file holds more.
   */
  method Process(ranks: seq<RankState>, K: nat, C: nat, total: nat, hardcut: nat)
    returns (headers: seq<int>, files: seq<seq<(nat, nat)>>)
    requires Separate(ranks) && Group(ranks, K) && 1 <= C <= K
    requires forall r :: 0 <= r < |ranks| ==> ranks[r].Valid() && ranks[r].C == C
    modifies ranks
    ensures AllThrough(ranks, K, C) && AllFair(ranks, K, C, total, hardcut) && |headers| == |files| == K
    ensures forall k :: 0 <= k < K ==> FileOk(ranks, k, headers[k], files[k])
    ensures forall k :: 0 <= k < K ==> (|files[k]| <= total <==> FirstWithin(ranks, K, total, hardcut, k))
    ensures hardcut == 1 ==> forall k :: 0 <= k < K ==> |files[k]| <= total
  {
    var global := AssignGroup(ranks, K, C, total, hardcut);
    headers, files := WriteFiles(ranks, K, C, global);
    forall k | 0 <= k < K
      ensures |files[k]| <= total <==> Within(ranks, K, C, total, k)
    {
      assert FileOk(ranks, k, headers[k], files[k]);
    }
  }

  // ----- from the data -----

  /** What rank `r` starts from. */
  ghost predicate Parts(parts: seq<seq<seq<real>>>, K: nat) {
    |parts| > 0 && forall r :: 0 <= r < |parts| ==> |parts[r]| <= MAX_SIZE && Matrix(parts[r], K)
  }

  /** The ranks, one for each part of the data, with nothing assigned. */
  method StartRanks(parts: seq<seq<seq<real>>>, K: nat, T: nat, C: nat, closure: real) returns (ranks: seq<RankState>)
    requires Parts(parts, K) && T > 0 && C <= K <= NO_LABEL
    ensures |ranks| == |parts| && Separate(ranks) && Group(ranks, K)
    ensures forall r :: 0 <= r < |ranks| ==>
      fresh(ranks[r]) && ranks[r].Valid() && ranks[r].C == C && ranks[r].closure == closure && ranks[r].dist == parts[r]
  {
    ranks := [];
    for r := 0 to |parts|
      invariant |ranks| == r && Separate(ranks)
      invariant forall q :: 0 <= q < r ==>
        fresh(ranks[q]) && ranks[q].Valid() && ranks[q].K == K && ranks[q].C == C && ranks[q].closure == closure
          && ranks[q].dist == parts[q]
    {
      var labels := seq(|parts[r]|, _ => seq(C, _ => NO_LABEL));
      var rank := new RankState(K, T, C, closure, parts[r], labels);
      ranks := ranks + [rank];
    }
  }

  /** From the distances of every rank's rows to the centers, to the files. */
  method PartitionData(parts: seq<seq<seq<real>>>, K: nat, T: nat, C: nat, closure: real, total: nat, hardcut: nat)
    returns (ranks: seq<RankState>, headers: seq<int>, files: seq<seq<(nat, nat)>>)
    requires Parts(parts, K) && T > 0 && 1 <= C <= K <= NO_LABEL
    ensures |ranks| == |parts| && Group(ranks, K) && AllThrough(ranks, K, C) && |headers| == |files| == K
    ensures AllFair(ranks, K, C, total, hardcut)
    ensures forall r :: 0 <= r < |ranks| ==> fresh(ranks[r]) && ranks[r].closure == closure && ranks[r].dist == parts[r]
    ensures forall k :: 0 <= k < K ==> FileOk(ranks, k, headers[k], files[k])
    ensures forall k :: 0 <= k < K ==> (|files[k]| <= total <==> FirstWithin(ranks, K, total, hardcut, k))
  {
    ranks := StartRanks(parts, K, T, C, closure);
    headers, files := Process(ranks, K, C, total, hardcut);
  }
}
