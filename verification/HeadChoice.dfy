/** What the static selection should choose, in terms of the tree alone. */
module HeadChoice {
  import opened BKTree
  import opened HeadStatistics
  import opened HeadCoverage

  /** Shallow candidates first, and the larger of two that are as deep. */
  ghost predicate DepthThenSize(order: seq<HeadCandidate>) {
    forall i, j :: 0 <= i < j < |order| ==>
      || order[i].depth < order[j].depth
      || (order[i].depth == order[j].depth && order[i].childrenSize >= order[j].childrenSize)
  }

  /** The largest number of heads the fill goes up to: one more than the ratio allows, but never more than there are. */
  ghost predicate IsLimit(limit: int, vectorCount: nat, ratio: real) {
    && limit <= vectorCount && (limit - 1) as real <= vectorCount as real * ratio
    && (limit < vectorCount ==> vectorCount as real * ratio < limit as real)
  }

  /** Node `n` with at most one step to its nearest leaf selects `v`: its own center, or one of its children's. */
  ghost predicate PickedAt(tree: Tree, n: nat, opts: Options, v: int)
    requires WellFormed(tree) && n < |tree|
  {
    || (Leaves(tree, n) >= opts.selectThreshold && v == tree[n].centerid)
    || (Leaves(tree, n) > opts.splitThreshold &&
        PickedChild(tree, tree[n].childStart, Leaves(tree, n), opts.splitFactor, v))
  }

  /** `v` is the center of child `i` of a node of `size` leaves, for an `i` from 1 on with `i * factor` below that. */
  ghost predicate PickedChild(tree: Tree, start: int, size: nat, factor: int, v: int) {
    exists c :: 0 <= start < c < |tree| && v == tree[c].centerid && (c - start) * factor < size
  }

  ghost predicate IsShallow(tree: Tree, par: seq<int>, n: int)
    requires Parents(tree, par)
  {
    0 <= n < |tree| && Under(par, 0, n) && !IsLeaf(tree, n) && MinDepth(tree, n) <= 1
  }

  ghost predicate Picked(tree: Tree, par: seq<int>, opts: Options, v: int)
    requires Parents(tree, par)
  {
    exists n :: IsShallow(tree, par, n) && PickedAt(tree, n, opts, v)
  }

  /** Going up from `s`, every node before `n` is small and its center is not in `picks`. */
  ghost predicate ClimbTo(tree: Tree, par: seq<int>, threshold: int, picks: set<int>, s: int, n: int)
    requires Parents(tree, par) && s < |tree|
    decreases s
  {
    0 <= s && (s == n ||
      (Leaves(tree, s) < threshold && tree[s].centerid !in picks && ClimbTo(tree, par, threshold, picks, par[s], n)))
  }

  lemma {:induction false} ClimbFurther(tree: Tree, par: seq<int>, threshold: int, picks: set<int>, s: int, n: nat)
    requires Parents(tree, par) && s < |tree| && n < |tree| && ClimbTo(tree, par, threshold, picks, s, n)
    requires Leaves(tree, n) < threshold && tree[n].centerid !in picks && par[n] >= 0
    ensures ClimbTo(tree, par, threshold, picks, s, par[n])
    decreases s
  {
    if s != n {
      ClimbFurther(tree, par, threshold, picks, par[s], n);
    }
  }

  /** `v` is the center of the first big node met going up from `s`, with no center in `picks` on the way. */
  ghost predicate FirstBig(tree: Tree, par: seq<int>, threshold: int, picks: set<int>, s: int, v: int)
    requires Parents(tree, par) && s < |tree|
  {
    exists n :: 0 <= n < |tree| && ClimbTo(tree, par, threshold, picks, s, n) && Leaves(tree, n) >= threshold
      && v == tree[n].centerid && v !in picks
  }

  /** The centers of the candidates `lo` to `hi`. */
  ghost function CentersOf(tree: Tree, order: seq<HeadCandidate>, lo: nat, hi: nat): set<int>
    requires hi <= |order| && forall j :: 0 <= j < |order| ==> order[j].nodeID < |tree|
  {
    set j | lo <= j < hi :: tree[order[j].nodeID].centerid
  }

  /** The candidates from `k` on are added in order, up to `n`, where they end or the limit is reached. */
  ghost predicate FillsTo(tree: Tree, order: seq<HeadCandidate>, k: nat, n: nat, start: set<int>, limit: int)
    requires n <= |order| && forall j :: 0 <= j < |order| ==> order[j].nodeID < |tree|
  {
    && k <= n
    && (forall m :: k <= m < n ==> |start + CentersOf(tree, order, k, m)| < limit)
    && (n < |order| ==> |start + CentersOf(tree, order, k, n)| >= limit)
  }
}
