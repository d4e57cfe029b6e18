/** What one round must give, read off the labels. */
module RoundLaw {
  import opened Options
  import opened HardAssign
  import opened NearestCenters
  import Sets

  /** The rows that name cluster `k` in column `j`. */
  ghost function Column(labels: seq<seq<int>>, j: nat, k: int): set<int>
    requires forall i :: 0 <= i < |labels| ==> j < |labels[i]|
  {
    set i | 0 <= i < |labels| && labels[i][j] == k
  }

  ghost predicate Nearer(dist: seq<seq<real>>, k: nat, h: int, i: int)
    requires 0 <= h < |dist| && k < |dist[h]| && 0 <= i < |dist| && k < |dist[i]|
  {
    dist[h][k] < dist[i][k] || (dist[h][k] == dist[i][k] && h < i)
  }

  ghost predicate LabelMatrix(labels: seq<seq<int>>, dist: seq<seq<real>>, K: nat, columns: nat) {
    |labels| == |dist| && Matrix(dist, K) && forall i :: 0 <= i < |labels| ==> columns <= |labels[i]|
  }

  /** A row names in column `j` the center it asks for there, or nothing. */
  ghost predicate Named(labels: seq<seq<int>>, dist: seq<seq<real>>, closure: real, j: nat)
    requires |labels| == |dist| && forall i :: 0 <= i < |labels| ==> j < |labels[i]|
  {
    forall i :: 0 <= i < |labels| ==> labels[i][j] == NO_LABEL || Asks(dist[i], j, closure, labels[i][j])
  }

  /** Row `i` asks for cluster `k` in column `j` and has not got it. */
  ghost predicate Refused(labels: seq<seq<int>>, dist: seq<seq<real>>, closure: real, j: nat, k: int, i: int)
    requires |labels| == |dist| && forall i :: 0 <= i < |labels| ==> j < |labels[i]|
  {
    0 <= i < |labels| && Asks(dist[i], j, closure, k) && labels[i][j] != k
  }

  /**
    One of `size` ranks gives cluster `k` in column `j` as many of the rows that ask as its share of `budget` holds,
    the nearest first. Without a budget it refuses nobody.
   */
  ghost predicate Fair(labels: seq<seq<int>>, dist: seq<seq<real>>, K: nat, closure: real, j: nat, k: nat, size: nat,
      budget: Option<int>)
    requires LabelMatrix(labels, dist, K, j + 1) && k < K
  {
    var column := Column(labels, j, k);
    && (budget.Some? ==> column == {} || |column| * size <= budget.value)
    && (forall i :: Refused(labels, dist, closure, j, k, i) ==>
      && budget.Some? && (|column| + 1) * size > budget.value
      && forall h :: h in column ==> Nearer(dist, k, h, i))
  }

  /** `q` is the largest share that `size` ranks can have of the budget; without one it is `rows`. */
  ghost predicate IsShare(q: int, budget: Option<int>, size: nat, rows: nat) {
    q >= 0 && match budget
      case None => q == rows
      case Some(b) => (q == 0 || q * size <= b) && (q + 1) * size > b
  }

  lemma WantsIffAsks(dist: seq<seq<real>>, K: nat, c: nat, closure: real, k: nat)
    requires Matrix(dist, K) && c < K && k < K
    ensures forall i :: 0 <= i < |dist| ==>
      (i in Wants(Candidates(dist, K, c, closure), k) <==> Asks(dist[i], c, closure, k))
    ensures forall i :: i in Wants(Candidates(dist, K, c, closure), k) ==>
      Candidates(dist, K, c, closure)[i] == Some(NodeDistPair(k, dist[i][k]))
  {
    forall i | 0 <= i < |dist|
      ensures i in Wants(Candidates(dist, K, c, closure), k) <==> Asks(dist[i], c, closure, k)
      ensures i in Wants(Candidates(dist, K, c, closure), k) ==>
        Candidates(dist, K, c, closure)[i] == Some(NodeDistPair(k, dist[i][k]))
    {
      CandidateIff(dist[i], c, closure, NodeDistPair(k, dist[i][k]));
      if i in Wants(Candidates(dist, K, c, closure), k) {
        CandidateIff(dist[i], c, closure, Candidate(dist[i], c, closure).value);
      }
    }
  }

  /** A row refused while the limit is `q` leaves exactly `q` rows that keep the cluster, all nearer. */
  lemma RefusedMeansFull(cs: seq<Option<NodeDistPair>>, limits: seq<int>, k: nat, i: nat)
    requires |limits| <= NO_LABEL && InRange(cs, |limits|) && k < |limits| && limits[k] >= 0
    requires i in Wants(cs, k) && i !in KeptFor(cs, limits, k)
    ensures |KeptFor(cs, limits, k)| == limits[k]
    ensures forall h :: h in KeptFor(cs, limits, k) ==> Closer(cs, h, i)
  {
    KeptCount(cs, limits, k);
    Sets.SubsetSize(Rivals(cs, i), Wants(cs, k));
    forall h | h in KeptFor(cs, limits, k)
      ensures Closer(cs, h, i)
    {
      if !Closer(cs, h, i) {
        Sets.SubsetSize(Rivals(cs, i), Rivals(cs, h));
      }
    }
  }

  /** The rows that name cluster `k` after a round are those that keep it. */
  lemma ColumnIsKept(labels: seq<seq<int>>, cs: seq<Option<NodeDistPair>>, limits: seq<int>, c: nat, fill: bool, k: nat)
    requires |labels| == |cs| && |limits| <= NO_LABEL && InRange(cs, |limits|) && k < |limits|
    requires forall i :: 0 <= i < |labels| ==> c < |labels[i]|
    ensures var after := AssignedLabels(labels, cs, limits, c, fill);
            && |after| == |labels| && (forall i :: 0 <= i < |labels| ==> |after[i]| == |labels[i]|)
            && Column(after, c, k) == KeptFor(cs, limits, k)
  {
    var after := AssignedLabels(labels, cs, limits, c, fill);
    forall i | 0 <= i < |labels|
      ensures |after[i]| == |labels[i]| && after[i][c] == LabelFor(cs, limits, i)
    {
      assert after[i] == AssignedRow(labels[i], c, LabelFor(cs, limits, i), fill);
    }
  }

  /** A round whose limits are the shares is fair. */
  lemma RoundFair(labels: seq<seq<int>>, dist: seq<seq<real>>, K: nat, closure: real, limits: seq<int>, c: nat,
      fill: bool, k: nat, size: nat, budget: Option<int>)
    requires c < K <= NO_LABEL && k < K == |limits| && LabelMatrix(labels, dist, K, c + 1)
    requires InRange(Candidates(dist, K, c, closure), K) && IsShare(limits[k], budget, size, |dist|)
    ensures LabelMatrix(AssignedLabels(labels, Candidates(dist, K, c, closure), limits, c, fill), dist, K, c + 1)
    ensures Fair(AssignedLabels(labels, Candidates(dist, K, c, closure), limits, c, fill), dist, K, closure, c, k, size,
      budget)
  {
    var cs := Candidates(dist, K, c, closure);
    var after := AssignedLabels(labels, cs, limits, c, fill);
    WantsIffAsks(dist, K, c, closure, k);
    ColumnIsKept(labels, cs, limits, c, fill, k);
    assert LabelMatrix(after, dist, K, c + 1);
    KeptCount(cs, limits, k);
    forall i | Refused(after, dist, closure, c, k, i)
      ensures |Column(after, c, k)| == limits[k] && budget.Some?
      ensures forall h :: h in Column(after, c, k) ==> Nearer(dist, k, h, i)
    {
      assert i !in Column(after, c, k);
      RefusedMeansFull(cs, limits, k, i);
      KeptBelowRows(cs, limits, k, i);
    }
    SmallerShare(|Column(after, c, k)|, limits[k], size);
  }

  /** Fewer rows keep the cluster than there are, when one of them does not. */
  lemma KeptBelowRows(cs: seq<Option<NodeDistPair>>, limits: seq<int>, k: nat, i: nat)
    requires InRange(cs, |limits|) && i < |cs| && i !in KeptFor(cs, limits, k)
    ensures |KeptFor(cs, limits, k)| < |cs|
  {
    var kept: set<nat> := set h | h in KeptFor(cs, limits, k);
    assert kept == KeptFor(cs, limits, k);
    Sets.BelowSize(kept, |cs|);
  }

  lemma SmallerShare(a: nat, q: nat, size: nat)
    requires a <= q
    ensures a * size <= q * size
  {
  }

  lemma RoundNamed(labels: seq<seq<int>>, dist: seq<seq<real>>, K: nat, closure: real, limits: seq<int>, c: nat,
      fill: bool)
    requires c < K <= NO_LABEL && K == |limits| && LabelMatrix(labels, dist, K, c + 1)
    requires InRange(Candidates(dist, K, c, closure), K)
    ensures LabelMatrix(AssignedLabels(labels, Candidates(dist, K, c, closure), limits, c, fill), dist, K, c + 1)
    ensures Named(AssignedLabels(labels, Candidates(dist, K, c, closure), limits, c, fill), dist, closure, c)
  {
    var cs := Candidates(dist, K, c, closure);
    var after := AssignedLabels(labels, cs, limits, c, fill);
    forall i | 0 <= i < |dist|
      ensures |after[i]| == |labels[i]| && (after[i][c] == NO_LABEL || Asks(dist[i], c, closure, after[i][c]))
    {
      assert after[i] == AssignedRow(labels[i], c, LabelFor(cs, limits, i), fill);
      if cs[i].Some? {
        CandidateIff(dist[i], c, closure, cs[i].value);
      }
    }
  }

  /** What is said of a column holds as long as the column stays. */
  lemma ColumnStays(labels: seq<seq<int>>, later: seq<seq<int>>, dist: seq<seq<real>>, K: nat, closure: real, j: nat,
      k: nat, size: nat, budget: Option<int>)
    requires LabelMatrix(labels, dist, K, j + 1) && LabelMatrix(later, dist, K, j + 1) && k < K
    requires forall i :: 0 <= i < |labels| ==> later[i][j] == labels[i][j]
    ensures Named(labels, dist, closure, j) ==> Named(later, dist, closure, j)
    ensures Fair(labels, dist, K, closure, j, k, size, budget) ==> Fair(later, dist, K, closure, j, k, size, budget)
  {
    assert Column(later, j, k) == Column(labels, j, k);
    forall i
      ensures Refused(later, dist, closure, j, k, i) ==> Refused(labels, dist, closure, j, k, i)
    {
    }
  }
}
