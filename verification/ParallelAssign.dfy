/** `MultipleClustersAssign`: per-thread counters merged afterwards give what one thread would have computed. */
module ParallelAssign {
  import opened Options
  import opened Sorting
  import opened ThreadSlices
  import opened HardAssign

  /**
    What is accumulated for one cluster: `newCounts`, `newWeightedCounts`, `newCenters`, `clusterIdx`, `clusterDist`.
   */
  datatype Acc = Acc(count: int, weight: real, center: seq<real>, idx: int, dist: real)

  /** A row's contribution to a cluster. */
  datatype Hit = Hit(row: nat, distance: real)

  /** The inputs of a call; `weights` and `points` are per row, `counts` and `weighted` per cluster. */
  datatype Input = Input(K: nat, C: nat, D: nat, closure: real, updateCenters: bool, lambda: real, wlambda: real,
      newPenalty: bool, dist: seq<seq<real>>, weights: seq<real>, points: seq<seq<real>>, counts: seq<nat>,
        weighted: seq<real>)
  {
    ghost predicate Valid() {
      && 0 < K <= NO_LABEL && C <= K && Matrix(dist, K)
      && |weights| == |points| == |dist| && Matrix(points, D)
      && |counts| == |weighted| == K
    }

    function Rows(): nat {
      |dist|
    }

    function Average(): nat
      requires K > 0
    {
      SumNat(counts) / K
    }

    function Penalty(k: nat): real
      requires Valid() && k < K
    {
      lambda * ((if newPenalty && counts[k] < Average() then Average() else counts[k]) as real) + wlambda * weighted[k]
    }

    function Penalised(i: nat): seq<real>
      requires Valid() && i < Rows()
    {
      seq(K, k requires 0 <= k < K => dist[i][k] + Penalty(k))
    }

    /** `ClearDists`: the value a fresh extreme is compared with. */
    function Fresh(): Acc {
      Acc(0, 0.0, seq(D, _ => 0.0), -1, if updateCenters then -MAX_DIST else MAX_DIST)
    }

    /**
      Is a distance more extreme than the one held? The farthest is sought when centers are updated, the nearest
      otherwise.
     */
    predicate Beats(distance: real, held: real) {
      if updateCenters then distance > held else distance <= held
    }
  }

  function SumNat(s: seq<nat>): nat {
    if s == [] then 0 else SumNat(s[..|s| - 1]) + s[|s| - 1]
  }

  function AddPoint(a: seq<real>, b: seq<real>): seq<real>
    requires |a| == |b|
  {
    seq(|a|, j requires 0 <= j < |a| => a[j] + b[j])
  }

  /** Row `i`'s label in column `c`. */
  function LabelAt(x: Input, i: nat, c: nat): int
    requires x.Valid() && i < x.Rows() && c < x.C
  {
    var r := Ranking(x.Penalised(i));
    if r[c].distance <= r[0].distance * x.closure then r[c].node else NO_LABEL
  }

  /** A row counted for a cluster at distance `d`. */
  function AddHit(x: Input, acc: Acc, i: nat, d: real): (after: Acc)
    requires x.Valid() && i < x.Rows() && |acc.center| == x.D
    ensures |after.center| == x.D
  {
    var beats := x.Beats(d, acc.dist);
    Acc(acc.count + 1, acc.weight + x.weights[i],
      if x.updateCenters then AddPoint(acc.center, x.points[i]) else acc.center,
      if beats then i else acc.idx, if beats then d else acc.dist)
  }

  /** One iteration of the column loop, as cluster `k`'s accumulator sees it. */
  function AddCell(x: Input, acc: Acc, i: nat, c: nat, k: nat): (after: Acc)
    requires x.Valid() && i < x.Rows() && c < x.C && |acc.center| == x.D
    ensures |after.center| == x.D
  {
    if LabelAt(x, i, c) == k then AddHit(x, acc, i, Ranking(x.Penalised(i))[c].distance) else acc
  }

  /** Columns `0` to `c` of row `i`. */
  function AddCells(x: Input, acc: Acc, i: nat, c: nat, k: nat): (after: Acc)
    requires x.Valid() && i < x.Rows() && c <= x.C && |acc.center| == x.D
    ensures |after.center| == x.D
  {
    if c == 0 then acc else AddCell(x, AddCells(x, acc, i, c - 1, k), i, c - 1, k)
  }

  /** One thread over the rows from `lo` to `hi`. */
  function Fold(x: Input, lo: nat, hi: nat, k: nat): (acc: Acc)
    requires x.Valid() && lo <= hi <= x.Rows()
    ensures |acc.center| == x.D
    decreases hi - lo
  {
    if lo == hi then x.Fresh() else AddCells(x, Fold(x, lo, hi - 1, k), hi - 1, x.C, k)
  }

  /** Folding a later thread's accumulator into the first one. */
  function Merge(x: Input, a: Acc, b: Acc): Acc
    requires |a.center| == |b.center| == x.D
  {
    var wins := b.idx != -1 && x.Beats(b.dist, a.dist);
    Acc(a.count + b.count, a.weight + b.weight, if x.updateCenters then AddPoint(a.center, b.center) else a.center,
      if wins then b.idx else a.idx, if wins then b.dist else a.dist)
  }

  /** No accumulator falls behind the fresh one. */
  ghost predicate Sound(x: Input, acc: Acc) {
    && |acc.center| == x.D
    && (if x.updateCenters then acc.dist >= x.Fresh().dist else acc.dist <= x.Fresh().dist)
    && (acc.idx == -1 ==> acc.dist == x.Fresh().dist)
  }

  lemma {:induction false} MergeCells(x: Input, a: Acc, b: Acc, i: nat, c: nat, k: nat)
    requires x.Valid() && i < x.Rows() && c <= x.C && Sound(x, a) && Sound(x, b)
    ensures Sound(x, AddCells(x, b, i, c, k))
    ensures Merge(x, a, AddCells(x, b, i, c, k)) == AddCells(x, Merge(x, a, b), i, c, k)
  {
    if c > 0 {
      MergeCells(x, a, b, i, c - 1, k);
      var b' := AddCells(x, b, i, c - 1, k);
      assert AddPoint(a.center, AddPoint(b'.center, x.points[i])) ==
        AddPoint(AddPoint(a.center, b'.center), x.points[i]);
    }
  }

  lemma {:induction false} FoldSound(x: Input, lo: nat, hi: nat, k: nat)
    requires x.Valid() && lo <= hi <= x.Rows()
    ensures Sound(x, Fold(x, lo, hi, k))
    decreases hi - lo
  {
    if lo < hi {
      FoldSound(x, lo, hi - 1, k);
      MergeCells(x, x.Fresh(), Fold(x, lo, hi - 1, k), hi - 1, x.C, k);
    }
  }

  lemma FoldStep(x: Input, lo: nat, hi: nat, k: nat)
    requires x.Valid() && lo < hi <= x.Rows()
    ensures Fold(x, lo, hi, k) == AddCells(x, Fold(x, lo, hi - 1, k), hi - 1, x.C, k)
  {
  }

  /** A thread without rows adds nothing. */
  lemma MergeFresh(x: Input, a: Acc)
    requires Sound(x, a)
    ensures Merge(x, a, x.Fresh()) == a
  {
    assert AddPoint(a.center, x.Fresh().center) == a.center;
  }

  /** Merging two adjacent slices gives the fold over both: thread boundaries leave no trace. */
  lemma {:induction false} MergeFolds(x: Input, lo: nat, mid: nat, hi: nat, k: nat)
    requires x.Valid() && lo <= mid <= hi <= x.Rows()
    ensures Merge(x, Fold(x, lo, mid, k), Fold(x, mid, hi, k)) == Fold(x, lo, hi, k)
    decreases hi - mid
  {
    FoldSound(x, lo, mid, k);
    if mid == hi {
      MergeFresh(x, Fold(x, lo, mid, k));
    } else {
      MergeFolds(x, lo, mid, hi - 1, k);
      FoldSound(x, mid, hi - 1, k);
      FoldStep(x, lo, hi, k);
      FoldStep(x, mid, hi, k);
      MergeCells(x, Fold(x, lo, mid, k), Fold(x, mid, hi - 1, k), hi - 1, x.C, k);
    }
  }

  // ----- what the fold means -----

  /** Row `i` is counted for cluster `k`, at this distance. */
  ghost predicate Hits(x: Input, i: nat, k: nat, distance: real)
    requires x.Valid() && i < x.Rows()
  {
    exists c :: 0 <= c < x.C && LabelAt(x, i, c) == k && Ranking(x.Penalised(i))[c].distance == distance
  }

  /** The extreme point: when centers are updated the first farthest of the rows counted, otherwise the last nearest. */
  ghost predicate Extreme(x: Input, hi: nat, k: nat, acc: Acc)
    requires x.Valid() && hi <= x.Rows()
  {
    if acc.idx == -1 then
      forall i, d :: 0 <= i < hi && Hits(x, i, k, d) ==> !x.Beats(d, x.Fresh().dist)
    else
      && 0 <= acc.idx < hi && Hits(x, acc.idx, k, acc.dist)
      && (forall i, d :: 0 <= i < hi && Hits(x, i, k, d) ==>
            if x.updateCenters then d < acc.dist || (d == acc.dist && i >= acc.idx)
            else d > acc.dist || (d == acc.dist && i <= acc.idx))
  }

  /** Row `i` names cluster `k` in at most one column, so it changes the accumulator at most once. */
  lemma {:induction false} CellsEffect(x: Input, acc: Acc, i: nat, c: nat, k: nat)
    requires x.Valid() && i < x.Rows() && c <= x.C && k < x.K && |acc.center| == x.D
    ensures var after := AddCells(x, acc, i, c, k);
            || ((forall j :: 0 <= j < c ==> LabelAt(x, i, j) != k) && after == acc)
            || (exists j :: 0 <= j < c && LabelAt(x, i, j) == k && after == AddCell(x, acc, i, j, k))
  {
    if c > 0 {
      CellsEffect(x, acc, i, c - 1, k);
      RankingFacts(x.Penalised(i));
    }
  }

  lemma HitsOnce(x: Input, i: nat, k: nat, c: nat, d: real)
    requires x.Valid() && i < x.Rows() && c < x.C && k < x.K && LabelAt(x, i, c) == k && Hits(x, i, k, d)
    ensures d == Ranking(x.Penalised(i))[c].distance
  {
    RankingFacts(x.Penalised(i));
  }

  /** A row that does not name the cluster leaves the extreme point as it is; one that does may take its place. */
  lemma ExtremeStep(x: Input, i: nat, k: nat, before: Acc, c: nat)
    requires x.Valid() && i < x.Rows() && k < x.K && Sound(x, before) && Extreme(x, i, k, before)
    requires c <= x.C && (c < x.C ==> LabelAt(x, i, c) == k)
    requires c == x.C ==> !Named(x, i, k)
    ensures c == x.C ==> Extreme(x, i + 1, k, before)
    ensures c < x.C ==> Extreme(x, i + 1, k, AddCell(x, before, i, c, k))
  {
    if c == x.C {
      forall d
        ensures !Hits(x, i, k, d)
      {
      }
    } else {
      var d := Ranking(x.Penalised(i))[c].distance;
      assert Hits(x, i, k, d);
      forall d' | Hits(x, i, k, d')
        ensures d' == d
      {
        HitsOnce(x, i, k, c, d');
      }
    }
  }

  ghost function NamedRows(x: Input, hi: nat, k: nat): set<int>
    requires x.Valid() && hi <= x.Rows()
  {
    set i | 0 <= i < hi && Named(x, i, k)
  }

  lemma RowEffect(x: Input, i: nat, k: nat, before: Acc)
    requires x.Valid() && i < x.Rows() && k < x.K && Sound(x, before) && Extreme(x, i, k, before)
    ensures Extreme(x, i + 1, k, AddCells(x, before, i, x.C, k))
    ensures AddCells(x, before, i, x.C, k).count == before.count + if Named(x, i, k) then 1 else 0
  {
    CellsEffect(x, before, i, x.C, k);
    if Named(x, i, k) {
      var c :| 0 <= c < x.C && LabelAt(x, i, c) == k && AddCells(x, before, i, x.C, k) == AddCell(x, before, i, c, k);
      ExtremeStep(x, i, k, before, c);
    } else {
      ExtremeStep(x, i, k, before, x.C);
    }
  }

  lemma NamedGrows(x: Input, i: nat, k: nat)
    requires x.Valid() && i < x.Rows()
    ensures |NamedRows(x, i + 1, k)| == |NamedRows(x, i, k)| + if Named(x, i, k) then 1 else 0
  {
    assert NamedRows(x, i + 1, k) == NamedRows(x, i, k) + if Named(x, i, k) then {i} else {};
  }

  /** The fold keeps the extreme point promised by `Extreme`, and counts every row that names the cluster. */
  lemma {:induction false} FoldMeaning(x: Input, hi: nat, k: nat)
    requires x.Valid() && hi <= x.Rows() && k < x.K
    ensures Extreme(x, hi, k, Fold(x, 0, hi, k))
    ensures Fold(x, 0, hi, k).count == |NamedRows(x, hi, k)|
    decreases hi
  {
    if hi > 0 {
      FoldMeaning(x, hi - 1, k);
      FoldSound(x, 0, hi - 1, k);
      RowEffect(x, hi - 1, k, Fold(x, 0, hi - 1, k));
      NamedGrows(x, hi - 1, k);
    } else {
      assert NamedRows(x, 0, k) == {};
    }
  }

  /** Some column of row `i` names cluster `k`. */
  ghost predicate Named(x: Input, i: nat, k: nat)
    requires x.Valid() && i < x.Rows()
  {
    exists c :: 0 <= c < x.C && LabelAt(x, i, c) == k
  }

  // ----- the call -----

  /** Folding the accumulators of threads `1` to `t` into thread 0's. */
  function MergeThreads(x: Input, accs: seq<Acc>): (acc: Acc)
    requires |accs| > 0 && forall t :: 0 <= t < |accs| ==> |accs[t].center| == x.D
    ensures |acc.center| == x.D
  {
    if |accs| == 1 then accs[0] else Merge(x, MergeThreads(x, accs[..|accs| - 1]), accs[|accs| - 1])
  }

  /** Where thread `t`'s slice really begins and ends: slices past the last row are empty. */
  function Clip(n: nat, p: int): nat {
    if p < 0 then 0 else if p > n then n else p
  }

  ghost predicate SliceFolds(x: Input, T: nat, accs: seq<Acc>, k: nat)
    requires x.Valid() && T > 0 && |accs| <= T
  {
    forall t :: 0 <= t < |accs| ==>
      Clip(x.Rows(), SliceStart(x.Rows(), T, t)) <= Clip(x.Rows(), SliceStart(x.Rows(), T, t + 1)) &&
      accs[t] == Fold(x, Clip(x.Rows(), SliceStart(x.Rows(), T, t)), Clip(x.Rows(), SliceStart(x.Rows(), T, t + 1)), k)
  }

  /** However the rows were cut among the threads, merging gives the one-thread fold. */
  lemma {:induction false} MergeThreadsIsFold(x: Input, T: nat, accs: seq<Acc>, k: nat)
    requires x.Valid() && T > 0 && 0 < |accs| <= T && SliceFolds(x, T, accs, k)
    requires forall t :: 0 <= t < |accs| ==> |accs[t].center| == x.D
    ensures MergeThreads(x, accs) == Fold(x, 0, Clip(x.Rows(), SliceStart(x.Rows(), T, |accs|)), k)
  {
    var n := |accs| - 1;
    assert SliceStart(x.Rows(), T, 0) == 0;
    if n > 0 {
      MergeThreadsIsFold(x, T, accs[..n], k);
      MergeFolds(x, 0, Clip(x.Rows(), SliceStart(x.Rows(), T, n)), Clip(x.Rows(), SliceStart(x.Rows(), T, n + 1)), k);
    }
  }

  class Assignment {
    const x: Input
    const T: nat
    var labels: seq<seq<int>>
    var accs: seq<seq<Acc>>   // thread by thread, cluster by cluster

    ghost predicate Valid()
      reads this
    {
      && x.Valid() && T > 0
      && Rectangular(labels, x.Rows(), x.C)
      && |accs| == T && (forall t :: 0 <= t < T ==> |accs[t]| == x.K)
      && (forall t, k :: 0 <= t < T && 0 <= k < x.K ==> |accs[t][k].center| == x.D)
    }

    /** Nothing is accumulated yet. */
    ghost predicate Cleared()
      requires Valid()
      reads this
    {
      forall t, k :: 0 <= t < T && 0 <= k < x.K ==> accs[t][k] == x.Fresh()
    }

    constructor (x: Input, T: nat, labels: seq<seq<int>>)
      requires x.Valid() && T > 0 && Rectangular(labels, x.Rows(), x.C)
      ensures this.x == x && this.T == T && this.labels == labels
      ensures Valid() && Cleared()
    {
      this.x, this.T, this.labels := x, T, labels;
      accs := seq(T, _ => seq(x.K, _ => x.Fresh()));
    }

    /** `ClearCounts`, `ClearCenters`, `ClearDists`. */
    method Clear()
      requires Valid()
      modifies this`accs
      ensures Valid() && Cleared()
    {
      accs := seq(T, _ => seq(x.K, _ => x.Fresh()));
    }

    ghost function RowLabels(i: nat): seq<int>
      requires x.Valid() && i < x.Rows()
    {
      seq(x.C, c requires 0 <= c < x.C => LabelAt(x, i, c))
    }

    ghost function RowAccs(before: seq<Acc>, i: nat, c: nat): seq<Acc>
      requires x.Valid() && i < x.Rows() && c <= x.C && |before| == x.K
      requires forall k :: 0 <= k < x.K ==> |before[k].center| == x.D
    {
      seq(x.K, k requires 0 <= k < x.K => AddCells(x, before[k], i, c, k))
    }

    lemma RowAccsStep(before: seq<Acc>, i: nat, c: nat)
      requires x.Valid() && i < x.Rows() && c < x.C && |before| == x.K
      requires forall k :: 0 <= k < x.K ==> |before[k].center| == x.D
      ensures var r := Ranking(x.Penalised(i));
              var mine := RowAccs(before, i, c);
              && 0 <= r[c].node < x.K == |mine| && |mine[r[c].node].center| == x.D
              && RowAccs(before, i, c + 1) == if LabelAt(x, i, c) == NO_LABEL then mine
                  else mine[r[c].node := AddHit(x, mine[r[c].node], i, r[c].distance)]
    {
      RankingFacts(x.Penalised(i));
    }

    /** One cell that passes the closure test, on the thread's own accumulator. */
    method Accumulate(acc: Acc, i: nat, d: real) returns (after: Acc)
      requires x.Valid() && i < x.Rows() && |acc.center| == x.D
      ensures after == AddHit(x, acc, i, d)
    {
      after := acc.(count := acc.count + 1, weight := acc.weight + x.weights[i]);
      if x.updateCenters {
        after := after.(center := AddPoint(acc.center, x.points[i]));
      }
      if x.Beats(d, acc.dist) {
        after := after.(idx := i, dist := d);
      }
    }

    /** The first `c` cells of row `i` are labelled. */
    ghost predicate Labelled(row: seq<int>, i: nat, c: nat)
      requires x.Valid() && i < x.Rows() && c <= x.C
    {
      |row| == x.C && forall j :: 0 <= j < c ==> row[j] == LabelAt(x, i, j)
    }

    /** One cell: its label, and the accumulator of the cluster it names. */
    method AssignCell(r: seq<NodeDistPair>, i: nat, c: nat, row0: seq<int>, mine0: seq<Acc>, ghost before: seq<Acc>)
      returns (row: seq<int>, mine: seq<Acc>)
      requires x.Valid() && i < x.Rows() && c < x.C && |before| == x.K && r == Ranking(x.Penalised(i))
      requires forall k :: 0 <= k < x.K ==> |before[k].center| == x.D
      requires Labelled(row0, i, c) && mine0 == RowAccs(before, i, c)
      ensures Labelled(row, i, c + 1) && mine == RowAccs(before, i, c + 1)
    {
      RowAccsStep(before, i, c);
      row, mine := AssignTo(r, i, c, row0, mine0);
    }

    /** The closure test and what follows from it. */
    method AssignTo(r: seq<NodeDistPair>, i: nat, c: nat, row0: seq<int>, mine0: seq<Acc>)
      returns (row: seq<int>, mine: seq<Acc>)
      requires x.Valid() && i < x.Rows() && c < x.C && r == Ranking(x.Penalised(i)) && c < |row0|
      requires 0 <= r[c].node < x.K == |mine0| && |mine0[r[c].node].center| == x.D
      ensures row == row0[c := LabelAt(x, i, c)]
      ensures mine == if LabelAt(x, i, c) == NO_LABEL then mine0
        else mine0[r[c].node := AddHit(x, mine0[r[c].node], i, r[c].distance)]
    {
      row, mine := row0, mine0;
      if r[c].distance <= r[0].distance * x.closure {
        var k := r[c].node;
        row := row[c := ToLabel(k)];
        var acc := Accumulate(mine[k], i, r[c].distance);
        mine := mine[k := acc];
      } else {
        row := row[c := NO_LABEL];
      }
    }

    /** The column loop of one row. */
    method AssignCells(i: nat, row0: seq<int>, before: seq<Acc>) returns (row: seq<int>, mine: seq<Acc>)
      requires x.Valid() && i < x.Rows() && |row0| == x.C && |before| == x.K
      requires forall k :: 0 <= k < x.K ==> |before[k].center| == x.D
      ensures row == RowLabels(i) && mine == RowAccs(before, i, x.C)
    {
      var r := Ranking(x.Penalised(i));
      row, mine := row0, before;
      assert mine == RowAccs(before, i, 0);
      for c := 0 to x.C
        invariant Labelled(row, i, c) && mine == RowAccs(before, i, c)
      {
        row, mine := AssignCell(r, i, c, row, mine, before);
      }
    }

    /** Thread `t`'s accumulators cover its rows from `lo` to `p`. */
    ghost predicate ThreadDone(t: nat, lo: int, p: int)
      requires Valid() && t < T
      reads this
    {
      && Clip(x.Rows(), lo) <= Clip(x.Rows(), p)
      && forall k :: 0 <= k < x.K ==> accs[t][k] == Fold(x, Clip(x.Rows(), lo), Clip(x.Rows(), p), k)
    }

    /** Every thread has covered its rows up to its position. */
    ghost predicate AllDone(pc: seq<int>)
      requires Valid() && |pc| == T
      reads this
    {
      forall t :: 0 <= t < T ==> ThreadDone(t, SliceStart(x.Rows(), T, t), pc[t])
    }

    /** Thread `t` handles its next row: its label cells and its own accumulators. */
    method StepThread(t: nat, i: nat, ghost pc: seq<int>)
      requires Valid() && |pc| == T && AllDone(pc) && t < T && pc[t] == i
      requires SliceStart(x.Rows(), T, t) <= i < x.Rows()
      modifies this
      ensures Valid() && AllDone(pc[t := i + 1])
      ensures labels == old(labels)[i := RowLabels(i)]
    {
      var row, mine := AssignCells(i, labels[i], accs[t]);
      ghost var lo := Clip(x.Rows(), SliceStart(x.Rows(), T, t));
      assert ThreadDone(t, SliceStart(x.Rows(), T, t), i);
      assert forall k :: 0 <= k < x.K ==> mine[k] == Fold(x, lo, i + 1, k);
      labels := labels[i := row];
      accs := accs[t := mine];
      forall u | 0 <= u < T
        ensures ThreadDone(u, SliceStart(x.Rows(), T, u), pc[t := i + 1][u])
      {
        assert old(ThreadDone(u, SliceStart(x.Rows(), T, u), pc[u]));
      }
    }

    /** All that holds between two steps of any threads: the rows `done` are labelled and covered. */
    ghost predicate Running(pc: seq<int>, done: set<int>)
      reads this
    {
      && Valid() && Progress(x.Rows(), T, pc, done) && |done| <= x.Rows() && AllDone(pc)
      && forall i :: i in done ==> labels[i] == RowLabels(i)
    }

    lemma StartsRunning()
      requires Valid() && Cleared()
      ensures Running(StartPositions(x.Rows(), T), {})
    {
      ProgressStart(x.Rows(), T);
    }

    method StepRunning(t: nat, pc: seq<int>, ghost done: set<int>)
      requires Running(pc, done) && t < T && pc[t] < SliceEnd(x.Rows(), T, t)
      modifies this
      ensures Running(pc[t := pc[t] + 1], done + {pc[t]}) && |done| < |done + {pc[t]}|
    {
      ProgressStep(x.Rows(), T, pc, done, t);
      StepThread(t, pc[t], pc);
    }

    /** The threads, in any interleaving, until all are through. */
    method RunThreads()
      requires Valid() && Cleared()
      modifies this
      ensures Valid()
      ensures forall i :: 0 <= i < x.Rows() ==> labels[i] == RowLabels(i)
      ensures forall k :: 0 <= k < x.K ==> SliceFolds(x, T, Column(k), k)
    {
      var n := x.Rows();
      var pc := StartPositions(n, T);
      ghost var done: set<int> := {};
      StartsRunning();
      while exists t :: 0 <= t < T && pc[t] < SliceEnd(n, T, t)
        invariant |pc| == T && Running(pc, done)
        decreases n - |done|
      {
        var t :| 0 <= t < T && pc[t] < SliceEnd(n, T, t);
        ghost var i := pc[t];
        StepRunning(t, pc, done);
        done := done + {i};
        pc := pc[t := pc[t] + 1];
      }
      ProgressEnd(n, T, pc, done);
      SlicesAdjoin(pc);
    }

    /**
      `T` threads in any interleaving, then the merge into thread 0. Labels, counts, weights, center sums and
      extreme points are those of a single pass over all rows, whatever `T` is.
     */
    method MultipleClustersAssign() returns (merged: seq<Acc>)
      requires Valid() && Cleared()
      modifies this
      ensures Valid()
      ensures forall i :: 0 <= i < x.Rows() ==> labels[i] == RowLabels(i)
      ensures |merged| == x.K && forall k :: 0 <= k < x.K ==> merged[k] == Fold(x, 0, x.Rows(), k)
    {
      RunThreads();
      merged := MergeAll();
      forall k | 0 <= k < x.K
        ensures merged[k] == Fold(x, 0, x.Rows(), k)
      {
        SlicesCover(x.Rows(), T);
        MergeThreadsIsFold(x, T, Column(k), k);
      }
    }

    /** When every thread is through, each accumulator covers exactly its slice. */
    lemma SlicesAdjoin(pc: seq<int>)
      requires Valid() && |pc| == T
      requires AllDone(pc)
      requires forall t :: 0 <= t < T ==>
        pc[t] == SliceStart(x.Rows(), T, t) || SliceStart(x.Rows(), T, t) <= pc[t] <= SliceEnd(x.Rows(), T, t)
      requires forall t :: 0 <= t < T ==> pc[t] >= SliceEnd(x.Rows(), T, t)
      ensures forall k :: 0 <= k < x.K ==> SliceFolds(x, T, Column(k), k)
    {
      var n := x.Rows();
      forall t | 0 <= t < T
        ensures Clip(n, pc[t]) == Clip(n, SliceStart(n, T, t + 1)) && Clip(n, SliceStart(n, T, t)) <= Clip(n, pc[t])
      {
        assert ThreadDone(t, SliceStart(n, T, t), pc[t]);
        SliceLengthNonNegative(n, T);
        MulMono(t, t + 1, SliceLength(n, T));
      }
      forall k, t | 0 <= k < x.K && 0 <= t < T
        ensures Column(k)[t] == Fold(x, Clip(n, SliceStart(n, T, t)), Clip(n, SliceStart(n, T, t + 1)), k)
      {
        assert ThreadDone(t, SliceStart(n, T, t), pc[t]);
      }
    }

    method MergePair(a: seq<Acc>, b: seq<Acc>) returns (next: seq<Acc>)
      requires |a| == |b| == x.K
      requires forall k :: 0 <= k < x.K ==> |a[k].center| == |b[k].center| == x.D
      ensures |next| == x.K && forall k :: 0 <= k < x.K ==> next[k] == Merge(x, a[k], b[k])
    {
      next := a;
      for k := 0 to x.K
        invariant |next| == x.K
        invariant forall j :: 0 <= j < x.K ==> next[j] == if j < k then Merge(x, a[j], b[j]) else a[j]
      {
        next := next[k := Merge(x, a[k], b[k])];
      }
    }

    method MergeAll() returns (merged: seq<Acc>)
      requires Valid()
      ensures |merged| == x.K && forall k :: 0 <= k < x.K ==> merged[k] == MergeThreads(x, Column(k))
    {
      merged := accs[0];
      for t := 1 to T
        invariant |merged| == x.K
        invariant forall k :: 0 <= k < x.K ==> merged[k] == MergeThreads(x, Column(k)[..t])
      {
        merged := MergePair(merged, accs[t]);
        forall k | 0 <= k < x.K
          ensures merged[k] == MergeThreads(x, Column(k)[..t + 1])
        {
          assert Column(k)[..t + 1][..t] == Column(k)[..t];
        }
      }
      assert forall k :: 0 <= k < x.K ==> Column(k)[..T] == Column(k);
    }

    ghost function Column(k: nat): (column: seq<Acc>)
      requires Valid() && k < x.K
      reads this
      ensures |column| == T && forall t :: 0 <= t < T ==> column[t] == accs[t][k]
    {
      seq(T, t requires 0 <= t < T && Valid() reads this => accs[t][k])
    }
  }

  lemma SliceLengthNonNegative(n: nat, T: nat)
    requires T > 0
    ensures SliceLength(n, T) >= 0
  {
    if n > 0 {
    }
  }

  lemma SlicesCover(n: nat, T: nat)
    requires T > 0
    ensures SliceStart(n, T, T) >= n
  {
    if n > 0 {
    }
  }
}
