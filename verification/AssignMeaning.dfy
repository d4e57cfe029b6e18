/** What an assignment pass adds up, row by row. */
module AssignMeaning {
  import opened Options
  import opened Sorting
  import opened HardAssign
  import opened NearestCenters
  import opened ParallelAssign

  // ----- the penalised distances -----

  /** The whole part of the mean of the counts. */
  ghost predicate IsAverage(average: nat, counts: seq<nat>) {
    average * |counts| <= SumNat(counts) < (average + 1) * |counts|
  }

  lemma AverageLaw(x: Input)
    requires x.Valid()
    ensures IsAverage(x.Average(), x.counts)
  {
    Quotient(SumNat(x.counts), x.K);
  }

  lemma Quotient(a: nat, n: nat)
    requires n > 0
    ensures a / n * n <= a < (a / n + 1) * n
  {
    assert (a / n + 1) * n == a / n * n + n;
  }

  /** What is added to the distance of cluster `k`: the new penalty takes no count below the average. */
  lemma PenaltyLaw(x: Input, i: nat, k: nat, average: nat)
    requires x.Valid() && i < x.Rows() && k < x.K && IsAverage(average, x.counts)
    ensures |x.Penalised(i)| == x.K
    ensures var charged := if x.newPenalty && x.counts[k] < average then average else x.counts[k];
      x.Penalised(i)[k] - x.dist[i][k] == x.lambda * charged as real + x.wlambda * x.weighted[k]
  {
    AverageLaw(x);
    OneAverage(average, x.Average(), SumNat(x.counts), x.K);
  }

  lemma OneAverage(a: nat, b: nat, sum: nat, n: nat)
    requires n > 0 && a * n <= sum < (a + 1) * n && b * n <= sum < (b + 1) * n
    ensures a == b
  {
    if a < b {
      SmallerProduct(a + 1, b, n);
    } else if b < a {
      SmallerProduct(b + 1, a, n);
    }
  }

  lemma SmallerProduct(a: nat, b: nat, n: nat)
    requires a <= b
    ensures a * n <= b * n
  {
  }

  // ----- the labels -----

  lemma LabelIsCandidate(x: Input, i: nat, c: nat)
    requires x.Valid() && i < x.Rows() && c < x.C
    ensures var p := Candidate(x.Penalised(i), c, x.closure);
      if p.Some? then LabelAt(x, i, c) == p.value.node && p.value == Ranking(x.Penalised(i))[c]
      else LabelAt(x, i, c) == NO_LABEL
  {
  }

  /** A cell names the center the row asks for in that column, and no cluster when it asks for none. */
  lemma LabelIff(x: Input, i: nat, c: nat, k: nat)
    requires x.Valid() && i < x.Rows() && c < x.C && k < x.K
    ensures LabelAt(x, i, c) == k <==> Asks(x.Penalised(i), c, x.closure, k)
    ensures LabelAt(x, i, c) == NO_LABEL || 0 <= LabelAt(x, i, c) < x.K
    ensures LabelAt(x, i, c) == k ==> Ranking(x.Penalised(i))[c].distance == x.Penalised(i)[k]
  {
    var d := x.Penalised(i);
    var p := Candidate(d, c, x.closure);
    LabelIsCandidate(x, i, c);
    CandidateIff(d, c, x.closure, NodeDistPair(k, d[k]));
    if p.Some? {
      CandidateIff(d, c, x.closure, p.value);
    }
  }

  /** Row `i` is counted for cluster `k`: fewer than `C` centers stand in front of it, and it is not too far behind. */
  ghost predicate Joins(x: Input, i: nat, k: nat)
    requires x.Valid() && i < x.Rows()
  {
    exists c :: 0 <= c < x.C && Asks(x.Penalised(i), c, x.closure, k)
  }

  lemma NamedIff(x: Input, i: nat, k: nat)
    requires x.Valid() && i < x.Rows() && k < x.K
    ensures Named(x, i, k) <==> Joins(x, i, k)
  {
    forall c | 0 <= c < x.C
      ensures LabelAt(x, i, c) == k <==> Asks(x.Penalised(i), c, x.closure, k)
    {
      LabelIff(x, i, c, k);
    }
  }

  lemma HitsIff(x: Input, i: nat, k: nat, d: real)
    requires x.Valid() && i < x.Rows() && k < x.K
    ensures Hits(x, i, k, d) <==> Joins(x, i, k) && d == x.Penalised(i)[k]
  {
    forall c | 0 <= c < x.C
      ensures LabelAt(x, i, c) == k <==> Asks(x.Penalised(i), c, x.closure, k)
      ensures LabelAt(x, i, c) == k ==> Ranking(x.Penalised(i))[c].distance == x.Penalised(i)[k]
    {
      LabelIff(x, i, c, k);
    }
    if Joins(x, i, k) {
      var c :| 0 <= c < x.C && Asks(x.Penalised(i), c, x.closure, k);
      assert LabelAt(x, i, c) == k;
    }
  }

  // ----- what is added up -----

  /** The rows before `hi` that join cluster `k`. */
  ghost function Members(x: Input, hi: nat, k: nat): set<int>
    requires x.Valid() && hi <= x.Rows()
  {
    set i | 0 <= i < hi && Joins(x, i, k)
  }

  /** The sum of `values` over those rows. */
  ghost function MemberSum(x: Input, hi: nat, k: nat, values: seq<real>): real
    requires x.Valid() && hi <= x.Rows() == |values|
    decreases hi
  {
    if hi == 0 then 0.0 else MemberSum(x, hi - 1, k, values) + if Joins(x, hi - 1, k) then values[hi - 1] else 0.0
  }

  /** Coordinate `j` of every row. */
  function Coordinate(x: Input, j: nat): seq<real>
    requires x.Valid() && j < x.D
  {
    seq(x.Rows(), i requires 0 <= i < x.Rows() => x.points[i][j])
  }

  /** What a row adds to weight and center, whichever columns name the cluster. */
  lemma RowAdds(x: Input, acc: Acc, i: nat, k: nat, j: nat)
    requires x.Valid() && i < x.Rows() && k < x.K && |acc.center| == x.D && j < x.D
    ensures var after := AddCells(x, acc, i, x.C, k);
      && after.weight == acc.weight + (if Joins(x, i, k) then x.weights[i] else 0.0)
      && after.center[j] == acc.center[j] + if Joins(x, i, k) && x.updateCenters then x.points[i][j] else 0.0
  {
    CellsEffect(x, acc, i, x.C, k);
    NamedIff(x, i, k);
  }

  lemma WeightAdds(x: Input, acc: Acc, i: nat, k: nat)
    requires x.Valid() && i < x.Rows() && k < x.K && |acc.center| == x.D
    ensures AddCells(x, acc, i, x.C, k).weight == acc.weight + (if Joins(x, i, k) then x.weights[i] else 0.0)
  {
    CellsEffect(x, acc, i, x.C, k);
    NamedIff(x, i, k);
  }

  /** The weight of a cluster is the sum of the weights of its rows. */
  lemma {:induction false} WeightMeaning(x: Input, hi: nat, k: nat)
    requires x.Valid() && hi <= x.Rows() && k < x.K
    ensures Fold(x, 0, hi, k).weight == MemberSum(x, hi, k, x.weights)
    decreases hi
  {
    if hi > 0 {
      WeightMeaning(x, hi - 1, k);
      FoldStep(x, 0, hi, k);
      WeightAdds(x, Fold(x, 0, hi - 1, k), hi - 1, k);
    }
  }

  /** Its center sum is the sum of their points when centers are updated, and nothing otherwise. */
  lemma {:induction false} CenterMeaning(x: Input, hi: nat, k: nat, j: nat)
    requires x.Valid() && hi <= x.Rows() && k < x.K && j < x.D
    ensures Fold(x, 0, hi, k).center[j] == if x.updateCenters then MemberSum(x, hi, k, Coordinate(x, j)) else 0.0
    decreases hi
  {
    if hi > 0 {
      CenterMeaning(x, hi - 1, k, j);
      FoldStep(x, 0, hi, k);
      RowAdds(x, Fold(x, 0, hi - 1, k), hi - 1, k, j);
    }
  }

  lemma CountMeaning(x: Input, hi: nat, k: nat)
    requires x.Valid() && hi <= x.Rows() && k < x.K
    ensures Fold(x, 0, hi, k).count == |Members(x, hi, k)|
  {
    FoldMeaning(x, hi, k);
    forall i | 0 <= i < hi
      ensures Named(x, i, k) <==> Joins(x, i, k)
    {
      NamedIff(x, i, k);
    }
    assert NamedRows(x, hi, k) == Members(x, hi, k);
  }

  // ----- the extreme point -----

  /**
    The point remembered for a cluster: with updates of the centers, the first of its rows that are farthest away;
    without, the last of those that are nearest. Rows whose distance is past the largest float do not count.
   */
  ghost predicate IsExtreme(x: Input, hi: nat, k: nat, idx: int, distance: real)
    requires x.Valid() && hi <= x.Rows() && k < x.K
  {
    if idx == -1 then
      forall i :: i in Members(x, hi, k) ==>
        if x.updateCenters then x.Penalised(i)[k] <= -MAX_DIST else x.Penalised(i)[k] > MAX_DIST
    else
      && idx in Members(x, hi, k) && distance == x.Penalised(idx)[k]
      && forall i :: i in Members(x, hi, k) ==>
        if x.updateCenters then x.Penalised(i)[k] < distance || (x.Penalised(i)[k] == distance && i >= idx)
        else x.Penalised(i)[k] > distance || (x.Penalised(i)[k] == distance && i <= idx)
  }

  lemma ExtremeMeaning(x: Input, hi: nat, k: nat)
    requires x.Valid() && hi <= x.Rows() && k < x.K
    ensures IsExtreme(x, hi, k, Fold(x, 0, hi, k).idx, Fold(x, 0, hi, k).dist)
  {
    FoldMeaning(x, hi, k);
    var acc := Fold(x, 0, hi, k);
    forall i | i in Members(x, hi, k)
      ensures Hits(x, i, k, x.Penalised(i)[k])
    {
      HitsIff(x, i, k, x.Penalised(i)[k]);
    }
    if acc.idx != -1 {
      HitsIff(x, acc.idx, k, acc.dist);
    }
  }
}
