/** `HardMultipleClustersAssign`: one round. */
module HardAssign {
  import opened Options
  import opened Sorting
  import opened ThreadSlices
  import Sets

  const MAX_SIZE: int := 0x7fff_ffff
  const MAX_DIST: real := 34028234663852885981170418348451692544.0
  // numeric_limits<short>::max(): "no cluster in this column"
  const NO_LABEL: int := 0x7fff

  datatype NodeDistPair = NodeDistPair(node: int, distance: real)

  datatype Edge = Edge(node: int, distance: real, tonode: int)

  predicate PairLe(a: NodeDistPair, b: NodeDistPair) {
    a.distance < b.distance || (a.distance == b.distance && a.node <= b.node)
  }

  /** `EdgeCompare`: cluster first, then distance, then row. */
  predicate EdgeBefore(a: Edge, b: Edge) {
    if a.node == b.node then
      if a.distance == b.distance then a.tonode < b.tonode else a.distance < b.distance
    else a.node < b.node
  }

  predicate EdgeLe(a: Edge, b: Edge) {
    !EdgeBefore(b, a)
  }

  /** The cast to `short`. */
  function ToLabel(node: int): int {
    (node + 0x8000) % 0x1_0000 - 0x8000
  }

  // ----- what a row asks for -----

  function CenterPairs(d: seq<real>): seq<NodeDistPair> {
    seq(|d|, k requires 0 <= k < |d| => NodeDistPair(k, d[k]))
  }

  /** The centers by distance, ties by number. */
  function Ranking(d: seq<real>): (r: seq<NodeDistPair>)
    ensures |r| == |d|
  {
    SortByCorrect(CenterPairs(d), PairLe);
    SortBy(CenterPairs(d), PairLe)
  }

  /** The `c`-th nearest center, unless it is too far behind the nearest one. */
  function Candidate(d: seq<real>, c: nat, closure: real): Option<NodeDistPair>
    requires c < |d|
  {
    var r := Ranking(d);
    if r[c].distance <= r[0].distance * closure then Some(r[c]) else None
  }

  ghost predicate Matrix(dist: seq<seq<real>>, K: nat) {
    forall i :: 0 <= i < |dist| ==> |dist[i]| == K
  }

  function Candidates(dist: seq<seq<real>>, K: nat, c: nat, closure: real): (cs: seq<Option<NodeDistPair>>)
    requires Matrix(dist, K) && c < K
  {
    seq(|dist|, i requires 0 <= i < |dist| => Candidate(dist[i], c, closure))
  }

  /** Ranking lists every center exactly once, with its distance, nearest first. */
  lemma RankingFacts(d: seq<real>)
    ensures Sorted(Ranking(d), PairLe)
    ensures forall c :: 0 <= c < |d| ==>
      0 <= Ranking(d)[c].node < |d| && Ranking(d)[c].distance == d[Ranking(d)[c].node]
    ensures forall b, c :: 0 <= b < c < |d| ==> Ranking(d)[b].node != Ranking(d)[c].node
  {
    var ps, r := CenterPairs(d), Ranking(d);
    SortByCorrect(ps, PairLe);
    PermutationNoDuplicates(ps, r);
    forall c | 0 <= c < |d|
      ensures 0 <= r[c].node < |d| && r[c] == ps[r[c].node]
    {
      assert r[c] in multiset(r);
      assert r[c] in ps;
    }
  }

  // ----- what a round should give -----

  ghost predicate InRange(cs: seq<Option<NodeDistPair>>, K: nat) {
    forall i :: 0 <= i < |cs| && cs[i].Some? ==> 0 <= cs[i].value.node < K
  }

  /** The rows that ask for cluster `k`. */
  ghost function Wants(cs: seq<Option<NodeDistPair>>, k: nat): set<int> {
    set i | 0 <= i < |cs| && cs[i].Some? && cs[i].value.node == k
  }

  predicate Closer(cs: seq<Option<NodeDistPair>>, j: nat, i: nat)
    requires i < |cs| && j < |cs| && cs[i].Some? && cs[j].Some?
  {
    cs[j].value.distance < cs[i].value.distance || (cs[j].value.distance == cs[i].value.distance && j < i)
  }

  /** The rows served before row `i`: they ask for the same cluster and are smaller by (distance, row). */
  ghost function Rivals(cs: seq<Option<NodeDistPair>>, i: nat): set<int>
    requires i < |cs| && cs[i].Some?
  {
    set j | 0 <= j < |cs| && cs[j].Some? && cs[j].value.node == cs[i].value.node && Closer(cs, j, i)
  }

  ghost predicate Kept(cs: seq<Option<NodeDistPair>>, limits: seq<int>, i: nat)
    requires i < |cs| && InRange(cs, |limits|)
  {
    cs[i].Some? && |Rivals(cs, i)| < limits[cs[i].value.node]
  }

  ghost function KeptFor(cs: seq<Option<NodeDistPair>>, limits: seq<int>, k: nat): set<int>
    requires InRange(cs, |limits|)
  {
    set i | 0 <= i < |cs| && Kept(cs, limits, i) && cs[i].value.node == k
  }

  /** The label row `i` should get in this round. */
  ghost function LabelFor(cs: seq<Option<NodeDistPair>>, limits: seq<int>, i: nat): int
    requires i < |cs| && InRange(cs, |limits|)
  {
    if Kept(cs, limits, i) then cs[i].value.node else NO_LABEL
  }

  function Min(a: int, b: int): int {
    if a < b then a else b
  }

  // ----- the sorted items -----

  function EdgeOf(cs: seq<Option<NodeDistPair>>, i: nat): Edge
    requires i < |cs|
  {
    if cs[i].Some? then Edge(cs[i].value.node, cs[i].value.distance, i) else Edge(MAX_SIZE, MAX_DIST, -1 - i)
  }

  function Edges(cs: seq<Option<NodeDistPair>>): seq<Edge> {
    seq(|cs|, i requires 0 <= i < |cs| => EdgeOf(cs, i))
  }

  /** The row behind the sign encoding. */
  function Row(e: Edge): int {
    if e.tonode >= 0 then e.tonode else -e.tonode - 1
  }

  function SortedEdges(cs: seq<Option<NodeDistPair>>): (s: seq<Edge>)
    ensures |s| == |cs|
    ensures forall p :: 0 <= p < |s| ==> 0 <= Row(s[p]) < |cs| && s[p] == EdgeOf(cs, Row(s[p]))
  {
    var s := SortBy(Edges(cs), EdgeLe);
    SortByCorrect(Edges(cs), EdgeLe);
    EdgesFromRows(cs, s);
    s
  }

  lemma EdgesFromRows(cs: seq<Option<NodeDistPair>>, s: seq<Edge>)
    requires multiset(s) == multiset(Edges(cs))
    ensures forall p :: 0 <= p < |s| ==> 0 <= Row(s[p]) < |cs| && s[p] == EdgeOf(cs, Row(s[p]))
  {
    forall p | 0 <= p < |s|
      ensures 0 <= Row(s[p]) < |cs| && s[p] == EdgeOf(cs, Row(s[p]))
    {
      assert s[p] in multiset(s);
      assert s[p] in Edges(cs);
      var i :| 0 <= i < |cs| && s[p] == Edges(cs)[i];
      assert Row(s[p]) == i;
    }
  }

  lemma EdgesDistinct(cs: seq<Option<NodeDistPair>>)
    ensures NoDuplicates(Edges(cs))
  {
    forall i, j | 0 <= i < j < |cs|
      ensures Edges(cs)[i] != Edges(cs)[j]
    {
      assert Row(EdgeOf(cs, i)) == i && Row(EdgeOf(cs, j)) == j;
    }
  }

  lemma EdgeLeOrder()
    ensures TotalPreorder(EdgeLe)
  {
  }

  /** Sorting orders the rows and repeats none. */
  lemma SortedEdgesFacts(cs: seq<Option<NodeDistPair>>)
    ensures Sorted(SortedEdges(cs), EdgeLe)
    ensures forall p, q :: 0 <= p < q < |cs| ==> Row(SortedEdges(cs)[p]) != Row(SortedEdges(cs)[q])
  {
    var s := SortedEdges(cs);
    EdgeLeOrder();
    SortByCorrect(Edges(cs), EdgeLe);
    EdgesDistinct(cs);
    PermutationNoDuplicates(Edges(cs), s);
    forall p, q | 0 <= p < q < |cs|
      ensures Row(s[p]) != Row(s[q])
    {
      assert s[p] != s[q];
    }
  }

  lemma EveryRowSorted(cs: seq<Option<NodeDistPair>>, i: nat) returns (p: nat)
    requires i < |cs|
    ensures p < |cs| && SortedEdges(cs)[p] == EdgeOf(cs, i) && Row(SortedEdges(cs)[p]) == i
  {
    SortByCorrect(Edges(cs), EdgeLe);
    assert Edges(cs)[i] in multiset(SortedEdges(cs));
    p :| 0 <= p < |cs| && SortedEdges(cs)[p] == Edges(cs)[i];
  }

  ghost predicate IsLowerBound(s: seq<Edge>, k: int, b: int) {
    && 0 <= b <= |s|
    && (forall p :: 0 <= p < b ==> s[p].node < k)
    && (forall p :: b <= p < |s| ==> s[p].node >= k)
  }

  /** The rows at positions `lo` to `hi`. */
  ghost function RowsBetween(cs: seq<Option<NodeDistPair>>, lo: nat, hi: nat): set<int>
    requires lo <= hi <= |cs|
  {
    set p | lo <= p < hi :: Row(SortedEdges(cs)[p])
  }

  lemma {:induction false} RowsBetweenSize(cs: seq<Option<NodeDistPair>>, lo: nat, hi: nat)
    requires lo <= hi <= |cs|
    ensures |RowsBetween(cs, lo, hi)| == hi - lo
    decreases hi
  {
    if lo < hi {
      RowsBetweenSize(cs, lo, hi - 1);
      MoreRows(cs, lo, hi - 1);
      Sets.AddedSize(RowsBetween(cs, lo, hi - 1), RowsBetween(cs, lo, hi), Row(SortedEdges(cs)[hi - 1]));
    }
  }

  lemma MoreRows(cs: seq<Option<NodeDistPair>>, lo: nat, p: nat)
    requires lo <= p < |cs|
    ensures Row(SortedEdges(cs)[p]) !in RowsBetween(cs, lo, p)
    ensures forall r :: r in RowsBetween(cs, lo, p + 1) <==> r in RowsBetween(cs, lo, p) || r == Row(SortedEdges(cs)[p])
  {
    SortedEdgesFacts(cs);
  }

  /** A row's place inside its cluster's segment is the number of its rivals. */
  lemma SegmentRank(cs: seq<Option<NodeDistPair>>, b: nat, p: nat)
    requires p < |cs| && cs[Row(SortedEdges(cs)[p])].Some?
    requires IsLowerBound(SortedEdges(cs), SortedEdges(cs)[p].node, b)
    requires InRange(cs, MAX_SIZE)
    ensures |Rivals(cs, Row(SortedEdges(cs)[p]))| == p - b
  {
    var s := SortedEdges(cs);
    var i := Row(s[p]);
    SortedEdgesFacts(cs);
    assert b <= p;
    forall j | j in Rivals(cs, i)
      ensures j in RowsBetween(cs, b, p)
    {
      var q := EveryRowSorted(cs, j);
      assert EdgeBefore(s[q], s[p]);
    }
    forall q | b <= q < p
      ensures Row(s[q]) in Rivals(cs, i)
    {
      assert EdgeLe(s[q], s[p]);
      assert s[q].node == s[p].node;
    }
    assert Rivals(cs, i) == RowsBetween(cs, b, p);
    RowsBetweenSize(cs, b, p);
  }

  lemma SegmentIsWants(cs: seq<Option<NodeDistPair>>, k: nat, b: nat, e: nat)
    requires k < MAX_SIZE && InRange(cs, MAX_SIZE)
    requires IsLowerBound(SortedEdges(cs), k, b) && IsLowerBound(SortedEdges(cs), k + 1, e)
    ensures b <= e && Wants(cs, k) == RowsBetween(cs, b, e) && |Wants(cs, k)| == e - b
  {
    SortedEdgesFacts(cs);
    assert e < |cs| ==> SortedEdges(cs)[e].node >= k + 1;
    forall i | i in Wants(cs, k)
      ensures i in RowsBetween(cs, b, e)
    {
      var p := EveryRowSorted(cs, i);
    }
    RowsBetweenSize(cs, b, e);
  }

  lemma LowerBoundExists(cs: seq<Option<NodeDistPair>>, k: int) returns (b: nat)
    ensures IsLowerBound(SortedEdges(cs), k, b)
  {
    SortedEdgesFacts(cs);
    var s := SortedEdges(cs);
    b := 0;
    while b < |s| && s[b].node < k
      invariant b <= |s| && forall p :: 0 <= p < b ==> s[p].node < k
    {
      b := b + 1;
    }
    forall p | b <= p < |s|
      ensures s[p].node >= k
    {
      if b < p {
        assert EdgeLe(s[b], s[p]);
      }
    }
  }

  /** Exactly `min(limit, candidates)` rows keep cluster `k`. */
  lemma KeptCount(cs: seq<Option<NodeDistPair>>, limits: seq<int>, k: nat)
    requires |limits| <= MAX_SIZE && InRange(cs, |limits|) && k < |limits| && limits[k] >= 0
    ensures |KeptFor(cs, limits, k)| == Min(limits[k], |Wants(cs, k)|)
  {
    var s := SortedEdges(cs);
    var b := LowerBoundExists(cs, k);
    var e := LowerBoundExists(cs, k + 1);
    SegmentIsWants(cs, k, b, e);
    SortedEdgesFacts(cs);
    var cut := b + Min(limits[k], e - b);
    forall p | b <= p < e
      ensures Row(s[p]) in KeptFor(cs, limits, k) <==> p < cut
    {
      assert s[p].node == k;
      SegmentRank(cs, b, p);
    }
    forall i | i in KeptFor(cs, limits, k)
      ensures i in RowsBetween(cs, b, cut)
    {
      assert i in RowsBetween(cs, b, e);
    }
    assert KeptFor(cs, limits, k) == RowsBetween(cs, b, cut);
    RowsBetweenSize(cs, b, cut);
  }

  // ----- the call -----

  /** A label row after the round: column `c` is set, and `fill` blanks the columns behind it. */
  ghost function AssignedRow(row: seq<int>, c: nat, value: int, fill: bool): seq<int>
    requires c < |row|
  {
    if fill then row[..c] + [value] + seq(|row| - c - 1, _ => NO_LABEL) else row[c := value]
  }

  /** The label matrix after the round, row by row, without any sorting. */
  ghost function AssignedLabels(labels: seq<seq<int>>, cs: seq<Option<NodeDistPair>>, limits: seq<int>, c: nat,
      fill: bool): seq<seq<int>>
    requires |labels| == |cs| && InRange(cs, |limits|)
    requires forall i :: 0 <= i < |labels| ==> c < |labels[i]|
  {
    seq(|labels|, i requires 0 <= i < |labels| => AssignedRow(labels[i], c, LabelFor(cs, limits, i), fill))
  }

  /** What an item looks like once the overflow of each cluster has been dropped. */
  ghost function Marked(cs: seq<Option<NodeDistPair>>, limits: seq<int>, p: nat): Edge
    requires p < |cs| && InRange(cs, |limits|)
  {
    var e := SortedEdges(cs)[p];
    if Kept(cs, limits, Row(e)) then e else e.(tonode := -1 - Row(e))
  }

  /** `rows` are the rows of the items `done`. */
  ghost predicate RowsOf(cs: seq<Option<NodeDistPair>>, done: set<int>, rows: set<int>) {
    forall p :: 0 <= p < |cs| ==> (p in done <==> Row(SortedEdges(cs)[p]) in rows)
  }

  lemma RowsOfGrows(cs: seq<Option<NodeDistPair>>, done: set<int>, rows: set<int>, p: nat)
    requires p < |cs| && RowsOf(cs, done, rows)
    ensures RowsOf(cs, done + {p}, rows + {Row(SortedEdges(cs)[p])})
  {
    SortedEdgesFacts(cs);
  }

  function Dropped(e: Edge): Edge {
    if e.tonode >= 0 then e.(tonode := -e.tonode - 1) else e
  }

  /** One more row seen adds one to the count of the cluster that keeps it, and to no other. */
  lemma KeptGrows(cs: seq<Option<NodeDistPair>>, limits: seq<int>, rows: set<int>, r: nat)
    requires InRange(cs, |limits|) && r < |cs| && r !in rows
    ensures forall k :: 0 <= k < |limits| ==> (|KeptFor(cs, limits, k) * (rows + {r})| ==
      |KeptFor(cs, limits, k) * rows| + if Kept(cs, limits, r) && cs[r].value.node == k then 1 else 0)
  {
    forall k | 0 <= k < |limits|
      ensures |KeptFor(cs, limits, k) * (rows + {r})| ==
        |KeptFor(cs, limits, k) * rows| + if Kept(cs, limits, r) && cs[r].value.node == k then 1 else 0
    {
      var kept := KeptFor(cs, limits, k);
      if r in kept {
        assert kept * (rows + {r}) == kept * rows + {r};
      } else {
        assert kept * (rows + {r}) == kept * rows;
      }
    }
  }

  lemma CandidatesInRange(dist: seq<seq<real>>, K: nat, c: nat, closure: real)
    requires Matrix(dist, K) && c < K
    ensures InRange(Candidates(dist, K, c, closure), K)
  {
    forall i | 0 <= i < |dist|
      ensures 0 <= Ranking(dist[i])[c].node < K
    {
      RankingFacts(dist[i]);
    }
  }

  /** The arguments of the assignment stage on one rank: `KmeansArgs`, the label matrix and `myLimit`. */
  class RankState {
    const K: nat
    const T: nat
    const C: nat
    const closure: real
    const dist: seq<seq<real>>
    var labels: seq<seq<int>>
    var newCounts: seq<seq<int>>
    var counts: seq<int>
    var limits: seq<int>

    ghost predicate Valid()
      reads this
    {
      && T > 0 && C <= K <= NO_LABEL && |dist| <= MAX_SIZE
      && Matrix(dist, K)
      && Rectangular(labels, |dist|, C)
      && Rectangular(newCounts, T, K)
      && |counts| == K && |limits| == K
    }

    /** `dist[i]` are the distances of row `i` to the `K` centers; `labels` has a column for each of the `C` rounds. */
    constructor (K: nat, T: nat, C: nat, closure: real, dist: seq<seq<real>>, labels: seq<seq<int>>)
      requires T > 0 && C <= K <= NO_LABEL && |dist| <= MAX_SIZE && Matrix(dist, K) && Rectangular(labels, |dist|, C)
      ensures Valid() && this.K == K && this.T == T && this.C == C && this.closure == closure
      ensures this.dist == dist && this.labels == labels
      ensures forall t, k :: 0 <= t < T && 0 <= k < K ==> newCounts[t][k] == 0
    {
      this.K, this.T, this.C, this.closure := K, T, C, closure;
      this.dist, this.labels := dist, labels;
      newCounts := seq(T, _ => seq(K, _ => 0));
      counts, limits := seq(K, _ => 0), seq(K, _ => 0);
    }

    ghost function Asked(c: nat): seq<Option<NodeDistPair>>
      requires Matrix(dist, K) && c < K
    {
      Candidates(dist, K, c, closure)
    }

    /** `func1`: the threads fill their slices of `items`, in any interleaving. */
    method FillItems(c: nat) returns (items: array<Edge>)
      requires Valid() && c < C
      ensures fresh(items) && items[..] == Edges(Asked(c))
    {
      var n := |dist|;
      items := new Edge[n](_ => Edge(MAX_SIZE, MAX_DIST, MAX_SIZE));
      var pc := StartPositions(n, T);
      ghost var done: set<int> := {};
      ProgressStart(n, T);
      while exists t :: 0 <= t < T && pc[t] < SliceEnd(n, T, t)
        invariant Progress(n, T, pc, done) && |done| <= n
        invariant forall i :: i in done ==> items[i] == EdgeOf(Asked(c), i)
        decreases n - |done|
      {
        var t :| 0 <= t < T && pc[t] < SliceEnd(n, T, t);
        ProgressStep(n, T, pc, done, t);
        var i := pc[t];
        var candidate := Candidate(dist[i], c, closure);
        items[i] := if candidate.Some?
          then Edge(candidate.value.node, candidate.value.distance, i)
          else Edge(MAX_SIZE, MAX_DIST, -1 - i);
        done := done + {i};
        pc := pc[t := pc[t] + 1];
      }
      ProgressEnd(n, T, pc, done);
    }

    /** `std::lower_bound` on the cluster field. */
    method LowerBound(items: array<Edge>, k: int) returns (b: nat)
      requires forall p, q :: 0 <= p < q < items.Length ==> items[p].node <= items[q].node
      ensures IsLowerBound(items[..], k, b)
    {
      b := 0;
      var hi := items.Length;
      while b < hi
        invariant 0 <= b <= hi <= items.Length
        invariant forall p :: 0 <= p < b ==> items[p].node < k
        invariant forall p :: hi <= p < items.Length ==> items[p].node >= k
      {
        var mid := (b + hi) / 2;
        if items[mid].node < k {
          b := mid + 1;
        } else {
          hi := mid;
        }
      }
    }

    /** Sign-encodes the items from `first` up to `last`. */
    method DropItems(items: array<Edge>, first: nat, last: nat)
      requires last <= items.Length
      modifies items
      ensures forall p :: 0 <= p < items.Length ==>
        items[p] == if first <= p < last then Dropped(old(items[p])) else old(items[p])
    {
      var dropID := first;
      while dropID < last
        invariant first <= dropID
        invariant forall p :: 0 <= p < items.Length ==>
          items[p] == if first <= p < dropID && p < last then Dropped(old(items[p])) else old(items[p])
      {
        if items[dropID].tonode >= 0 {
          items[dropID] := items[dropID].(tonode := -items[dropID].tonode - 1);
        }
        dropID := dropID + 1;
      }
    }

    /** Drops, cluster by cluster, every item beyond the cluster's limit. */
    method DropOverflow(items: array<Edge>, ghost cs: seq<Option<NodeDistPair>>)
      requires Valid() && InRange(cs, K) && items[..] == SortedEdges(cs)
      requires forall k :: 0 <= k < K ==> limits[k] >= 0
      modifies items
      ensures forall p :: 0 <= p < |cs| ==> items[p] == Marked(cs, limits, p)
    {
      var startIdx := 0;
      for i := 0 to K
        invariant 0 <= startIdx <= |cs| && IsLowerBound(SortedEdges(cs), i, startIdx)
        invariant DroppedUpTo(items[..], cs, startIdx)
      {
        startIdx := DropCluster(items, i, startIdx, cs);
      }
      forall p | startIdx <= p < |cs|
        ensures Marked(cs, limits, p) == SortedEdges(cs)[p]
      {
        assert SortedEdges(cs)[p].node >= K;
      }
    }

    /** The items in front of `b` are marked, the others still as sorted. */
    ghost predicate DroppedUpTo(items: seq<Edge>, cs: seq<Option<NodeDistPair>>, b: nat)
      requires InRange(cs, |limits|)
      reads this`limits
    {
      |items| == |cs| && forall p :: 0 <= p < |cs| ==>
        items[p] == if p < b then Marked(cs, limits, p) else SortedEdges(cs)[p]
    }

    /** What becomes of the segment of cluster `i`. */
    lemma SegmentMarked(cs: seq<Option<NodeDistPair>>, i: nat, b: nat, e: nat)
      requires Valid() && InRange(cs, K) && i < K && b <= e <= |cs|
      requires IsLowerBound(SortedEdges(cs), i, b) && IsLowerBound(SortedEdges(cs), i + 1, e)
      ensures forall p :: b <= p < e ==>
        Marked(cs, limits, p) == if p < b + limits[i] then SortedEdges(cs)[p] else Dropped(SortedEdges(cs)[p])
    {
      forall p | b <= p < e
        ensures Marked(cs, limits, p) == if p < b + limits[i] then SortedEdges(cs)[p] else Dropped(SortedEdges(cs)[p])
      {
        assert SortedEdges(cs)[p].node == i;
        SegmentRank(cs, b, p);
      }
    }

    /** The nodes stay in order while the rows are marked. */
    lemma NodesKept(items: seq<Edge>, cs: seq<Option<NodeDistPair>>, b: nat)
      requires Valid() && InRange(cs, K) && DroppedUpTo(items, cs, b)
      ensures forall p :: 0 <= p < |items| ==> items[p].node == SortedEdges(cs)[p].node
      ensures forall p, q :: 0 <= p < q < |items| ==> items[p].node <= items[q].node
    {
      SortedEdgesFacts(cs);
      forall p, q | 0 <= p < q < |items|
        ensures SortedEdges(cs)[p].node <= SortedEdges(cs)[q].node
      {
        assert EdgeLe(SortedEdges(cs)[p], SortedEdges(cs)[q]);
      }
    }

    method DropCluster(items: array<Edge>, i: nat, startIdx: nat, ghost cs: seq<Option<NodeDistPair>>)
      returns (endIdx: nat)
      requires Valid() && InRange(cs, K) && i < K && limits[i] >= 0
      requires startIdx <= |cs| && IsLowerBound(SortedEdges(cs), i, startIdx) && DroppedUpTo(items[..], cs, startIdx)
      modifies items
      ensures startIdx <= endIdx <= |cs| && IsLowerBound(SortedEdges(cs), i + 1, endIdx)
        && DroppedUpTo(items[..], cs, endIdx)
    {
      NodesKept(items[..], cs, startIdx);
      endIdx := LowerBound(items, i + 1);
      assert IsLowerBound(SortedEdges(cs), i + 1, endIdx);
      SegmentIsWants(cs, i, startIdx, endIdx);
      SegmentMarked(cs, i, startIdx, endIdx);
      DropItems(items, startIdx + limits[i], endIdx);
    }

    /** One iteration of `func2` in thread `t`. */
    method WriteItem(e: Edge, t: nat, c: nat, fill: bool) returns (e': Edge)
      requires Valid() && t < T && c < C && 0 <= Row(e) < |dist|
      requires e.tonode >= 0 ==> 0 <= e.node < K
      modifies this`labels, this`newCounts
      ensures Valid() && e' == e.(tonode := Row(e))
      ensures labels == old(labels)[Row(e) :=
        AssignedRow(old(labels)[Row(e)], c, if e.tonode >= 0 then e.node else NO_LABEL, fill)]
      ensures forall k :: 0 <= k < K ==>
        ColumnSum(newCounts, k) == ColumnSum(old(newCounts), k) + if e.tonode >= 0 && k == e.node then 1 else 0
    {
      var value := NO_LABEL;
      e' := e;
      if e.tonode >= 0 {
        value := ToLabel(e.node);
        forall k | 0 <= k < K
          ensures ColumnSum(newCounts[t := newCounts[t][e.node := newCounts[t][e.node] + 1]], k) ==
            ColumnSum(newCounts, k) + if k == e.node then 1 else 0
        {
          ColumnSumUpdate(newCounts, K, t, e.node, newCounts[t][e.node] + 1, k);
        }
        newCounts := newCounts[t := newCounts[t][e.node := newCounts[t][e.node] + 1]];
      } else {
        e' := e.(tonode := -e.tonode - 1);
      }
      WriteRow(e'.tonode, c, value, fill);
    }

    method WriteRow(row: nat, c: nat, value: int, fill: bool)
      requires Valid() && c < C && row < |dist|
      modifies this`labels
      ensures labels == old(labels)[row := AssignedRow(old(labels)[row], c, value, fill)]
    {
      labels := labels[row := labels[row][c := value]];
      if fill {
        for k := c + 1 to C
          invariant Valid() && labels == old(labels)[row := labels[row]]
          invariant forall j :: 0 <= j < C ==> (labels[row][j] ==
            if j < c then old(labels)[row][j] else if j == c then value else if j < k then NO_LABEL
              else old(labels)[row][j])
        {
          labels := labels[row := labels[row][k := NO_LABEL]];
        }
        assert labels[row] == AssignedRow(old(labels)[row], c, value, fill);
      }
    }

    /** `labels`, `newCounts` and `items` once `func2` has handled the items `done` (rows `rows`) and no others. */
    ghost predicate Written(items: seq<Edge>, cs: seq<Option<NodeDistPair>>, done: set<int>, rows: set<int>,
        oldLabels: seq<seq<int>>, target: seq<seq<int>>, oldCounts: seq<int>)
      reads this
      requires Valid() && InRange(cs, K)
    {
      && |items| == |cs| == |dist| == |oldLabels| == |target| && |oldCounts| == K
      && RowsOf(cs, done, rows)
      && (forall p :: 0 <= p < |cs| && p !in done ==> items[p] == Marked(cs, limits, p))
      && (forall i :: 0 <= i < |cs| ==> labels[i] == if i in rows then target[i] else oldLabels[i])
      && (forall k :: 0 <= k < K ==> ColumnSum(newCounts, k) == oldCounts[k] + |KeptFor(cs, limits, k) * rows|)
    }

    method StepWrite(items: array<Edge>, p: nat, t: nat, c: nat, fill: bool, ghost cs: seq<Option<NodeDistPair>>,
        ghost done: set<int>, ghost rows: set<int>, ghost oldLabels: seq<seq<int>>, ghost target: seq<seq<int>>,
          ghost oldCounts: seq<int>)
      requires Valid() && InRange(cs, K) && t < T && c < C
      requires Written(items[..], cs, done, rows, oldLabels, target, oldCounts)
      requires p < |cs| && p !in done
      requires Rectangular(oldLabels, |dist|, C) && target == AssignedLabels(oldLabels, cs, limits, c, fill)
      modifies this`labels, this`newCounts, items
      ensures Valid()
      ensures Written(items[..], cs, done + {p}, rows + {Row(SortedEdges(cs)[p])}, oldLabels, target, oldCounts)
    {
      ghost var r := Row(SortedEdges(cs)[p]);
      KeptGrows(cs, limits, rows, r);
      RowsOfGrows(cs, done, rows, p);
      items[p] := WriteItem(items[p], t, c, fill);
    }

    /** `func2`: the threads write labels and count, in any interleaving; the sign encoding is undone. */
    method WriteBack(items: array<Edge>, c: nat, fill: bool, ghost cs: seq<Option<NodeDistPair>>)
      requires Valid() && c < C && |cs| == |dist| == items.Length && InRange(cs, K)
      requires forall p :: 0 <= p < |cs| ==> items[p] == Marked(cs, limits, p)
      modifies this`labels, this`newCounts, items
      ensures Valid()
      ensures labels == AssignedLabels(old(labels), cs, limits, c, fill)
      ensures forall k :: 0 <= k < K ==>
        ColumnSum(newCounts, k) == ColumnSum(old(newCounts), k) + |KeptFor(cs, limits, k)|
    {
      var n := |dist|;
      var pc := StartPositions(n, T);
      ghost var done: set<int> := {};
      ghost var rows: set<int> := {};
      ghost var target := AssignedLabels(labels, cs, limits, c, fill);
      ghost var before := newCounts;
      ghost var oldCounts := seq(K, k requires 0 <= k < K => ColumnSum(before, k));
      ProgressStart(n, T);
      while exists t :: 0 <= t < T && pc[t] < SliceEnd(n, T, t)
        invariant Progress(n, T, pc, done) && |done| <= n && Valid()
        invariant Written(items[..], cs, done, rows, old(labels), target, oldCounts)
        decreases n - |done|
      {
        var t :| 0 <= t < T && pc[t] < SliceEnd(n, T, t);
        ProgressStep(n, T, pc, done, t);
        var p := pc[t];
        StepWrite(items, p, t, c, fill, cs, done, rows, old(labels), target, oldCounts);
        rows := rows + {Row(SortedEdges(cs)[p])};
        done := done + {p};
        pc := pc[t := pc[t] + 1];
      }
      ProgressEnd(n, T, pc, done);
      forall i | 0 <= i < n
        ensures i in rows
      {
        var p := EveryRowSorted(cs, i);
        assert p in done;
      }
      forall k | 0 <= k < K
        ensures KeptFor(cs, limits, k) * rows == KeptFor(cs, limits, k)
      {
      }
    }

    /**
      The whole call. Which rows get cluster `k` is decided by (distance, row) alone: not by the thread
      count, not by the interleaving, not by how ties fell in the sort.
     */
    method HardMultipleClustersAssign(c: nat, fill: bool)
      requires Valid() && c < C
      requires forall k :: 0 <= k < K ==> limits[k] >= ColumnSum(newCounts, k)
      modifies this
      ensures Valid()
      ensures forall k :: 0 <= k < K ==> limits[k] == old(limits)[k] - ColumnSum(old(newCounts), k)
      ensures InRange(Asked(c), K) && labels == AssignedLabels(old(labels), Asked(c), limits, c, fill)
      ensures forall k :: 0 <= k < K ==>
        ColumnSum(newCounts, k) == ColumnSum(old(newCounts), k) + Min(limits[k], |Wants(Asked(c), k)|)
      ensures forall k :: 0 <= k < K ==> counts[k] == ColumnSum(newCounts, k)
    {
      ghost var cs := Asked(c);
      CandidatesInRange(dist, K, c, closure);
      var items := FillItems(c);
      SortItems(items);
      SubtractCounts();
      DropOverflow(items, cs);
      WriteBack(items, c, fill, cs);
      forall k | 0 <= k < K
        ensures |KeptFor(cs, limits, k)| == Min(limits[k], |Wants(cs, k)|)
      {
        KeptCount(cs, limits, k);
      }
      TotalCounts();
    }

    method SortItems(items: array<Edge>)
      modifies items
      ensures items[..] == SortBy(old(items[..]), EdgeLe)
    {
      EdgeLeOrder();
      SortByCorrect(items[..], EdgeLe);
      var s := SortBy(items[..], EdgeLe);
      forall p | 0 <= p < items.Length {
        items[p] := s[p];
      }
    }

    /** Takes off the limits what earlier rounds have already given out. */
    method SubtractCounts()
      requires Valid()
      modifies this`limits
      ensures Valid()
      ensures forall k :: 0 <= k < K ==> limits[k] == old(limits)[k] - ColumnSum(newCounts, k)
    {
      for i := 0 to T
        invariant Valid()
        invariant forall k :: 0 <= k < K ==> limits[k] == old(limits)[k] - ColumnSum(newCounts[..i], k)
      {
        ghost var before := limits;
        for k := 0 to K
          invariant Valid()
          invariant forall j :: 0 <= j < K ==> limits[j] == before[j] - if j < k then newCounts[i][j] else 0
        {
          limits := limits[k := limits[k] - newCounts[i][k]];
        }
        assert newCounts[..i + 1][..i] == newCounts[..i];
      }
      assert newCounts[..T] == newCounts;
    }

    /** Adds up the per-thread counters. */
    method TotalCounts()
      requires Valid()
      modifies this`counts
      ensures Valid()
      ensures forall k :: 0 <= k < K ==> counts[k] == ColumnSum(newCounts, k)
    {
      counts := seq(K, _ => 0);
      for i := 0 to T
        invariant Valid()
        invariant forall k :: 0 <= k < K ==> counts[k] == ColumnSum(newCounts[..i], k)
      {
        ghost var before := counts;
        for k := 0 to K
          invariant Valid()
          invariant forall j :: 0 <= j < K ==> counts[j] == before[j] + if j < k then newCounts[i][j] else 0
        {
          counts := counts[k := counts[k] + newCounts[i][k]];
        }
        assert newCounts[..i + 1][..i] == newCounts[..i];
      }
      assert newCounts[..T] == newCounts;
    }
  }
}
