/** `SelectHeadStatically` and what it covers. */
module HeadStatic {
  import opened Sets
  import opened Sorting
  import opened BKTree
  import opened HeadStatistics
  import opened HeadCoverage
  import opened HeadChoice

  /** The sort order of the candidates: shallow first, then large first. */
  predicate CandidateLe(a: HeadCandidate, b: HeadCandidate) {
    if a.depth == b.depth then a.childrenSize >= b.childrenSize else a.depth < b.depth
  }

  function CeilDiv(a: nat, b: int): nat
    requires b > 0
  {
    (a + b - 1) / b
  }

  /** The `selectCount` of a big cluster. */
  function SplitCount(size: nat, opts: Options): nat
    requires opts.splitFactor > 0
  {
    CeilDiv(size, opts.splitFactor)
  }

  /** `selectLimit`. */
  function SelectLimit(vectorCount: nat, opts: Options): int {
    var limit := (vectorCount as real * opts.ratio).Floor + 1;
    if limit > vectorCount then vectorCount else limit
  }

  /**
    Inputs the code can run on: a first tree without collapsed clusters, the sentinel center on the root alone, and
    no split that reads past the node array.
   */
  ghost predicate Selectable(tree: Tree, par: seq<int>, vectorCount: nat, opts: Options) {
    && Parents(tree, par) && NoCollapsed(tree) && opts.splitFactor > 0 && opts.ratio >= 0.0
    && tree[0].centerid == vectorCount
    && (forall n :: 0 < n < |tree| && Under(par, 0, n) ==> tree[n].centerid != vectorCount)
    && (forall n :: 0 <= n < |tree| && Under(par, 0, n) && !IsLeaf(tree, n) && MinDepth(tree, n) <= 1 ==>
          Leaves(tree, n) > opts.splitThreshold ==> tree[n].childStart + SplitCount(Leaves(tree, n), opts) <= |tree|)
  }

  /** The statistics `DfsSelect` leaves behind. */
  ghost predicate Statistics(tree: Tree, par: seq<int>, infos: seq<NodeInfo>) {
    && Parents(tree, par) && |infos| == |tree|
    && forall m :: 0 <= m < |tree| && Under(par, 0, m) ==>
      infos[m].leafSize == Leaves(tree, m) && infos[m].parent == par[m]
  }

  /**
    Climbing from `n` with a worklist: some node on the way up, with only small nodes before it, is selected or waits
    in `queue`; or there are only small nodes up to the root.
   */
  ghost predicate Pending(tree: Tree, par: seq<int>, threshold: int, selected: set<int>, queue: seq<int>, n: int)
    requires Parents(tree, par) && -1 <= n < |tree|
    decreases n
  {
    n == -1 || tree[n].centerid in selected || n in queue
    || (Leaves(tree, n) < threshold && Pending(tree, par, threshold, selected, queue, par[n]))
  }

  lemma {:induction false} PendingGrows(tree: Tree, par: seq<int>, threshold: int, s: set<int>, q: seq<int>,
      s': set<int>, q': seq<int>, n: int)
    requires Parents(tree, par) && -1 <= n < |tree| && Pending(tree, par, threshold, s, q, n)
    requires s <= s' && forall i :: 0 <= i < |q| && -1 <= q[i] < |tree| ==> Pending(tree, par, threshold, s', q', q[i])
    ensures Pending(tree, par, threshold, s', q', n)
    decreases n
  {
    if n >= 0 && tree[n].centerid !in s && n !in q {
      PendingGrows(tree, par, threshold, s, q, s', q', par[n]);
    }
  }

  /** Once the worklist is empty, a big ancestor has a selected node at or below it on the way. */
  lemma {:induction false} PendingCovers(tree: Tree, par: seq<int>, threshold: int, selected: set<int>, n: nat,
      big: nat)
    requires Parents(tree, par) && n < |tree| && big < |tree| && Pending(tree, par, threshold, selected, [], n)
    requires Under(par, big, n) && Leaves(tree, big) >= threshold
    ensures exists a :: 0 <= a < |tree| && Under(par, big, a) && Under(par, a, n) && tree[a].centerid in selected
    decreases n
  {
    if tree[n].centerid in selected {
      assert Under(par, n, n);
    } else {
      PendingCovers(tree, par, threshold, selected, par[n], big);
      var a :| 0 <= a < |tree| && Under(par, big, a) && Under(par, a, par[n]) && tree[a].centerid in selected;
      assert Under(par, a, n);
    }
  }

  ghost predicate QueueOk(tree: Tree, par: seq<int>, queue: seq<int>)
    requires Parents(tree, par)
  {
    forall i :: 0 <= i < |queue| ==> -1 <= queue[i] < |tree| && (queue[i] >= 0 ==> Under(par, 0, queue[i]))
  }

  /** The worklist measure: an entry weighs two more than its index. */
  ghost function Weight(queue: seq<int>): int {
    if queue == [] then 0 else queue[0] + 2 + Weight(queue[1..])
  }

  lemma {:induction false} WeightAppend(queue: seq<int>, x: int)
    ensures Weight(queue + [x]) == Weight(queue) + x + 2
  {
    if queue != [] {
      WeightAppend(queue[1..], x);
      assert (queue + [x])[1..] == queue[1..] + [x];
    }
  }

  lemma {:induction false} WeightNonNegative(queue: seq<int>)
    requires forall i :: 0 <= i < |queue| ==> queue[i] >= -1
    ensures Weight(queue) >= |queue|
  {
    if queue != [] {
      WeightNonNegative(queue[1..]);
    }
  }

  /** The centers of the nodes of the tree. */
  ghost function Centers(tree: Tree): set<int> {
    set n | 0 <= n < |tree| :: tree[n].centerid
  }

  /** Every entry of the worklist was reached by climbing from one of `starts`. */
  ghost predicate AllReached(tree: Tree, par: seq<int>, threshold: int, picks: set<int>, starts: seq<int>,
      queue: seq<int>)
    requires Parents(tree, par) && QueueOk(tree, par, starts)
  {
    forall i :: 0 <= i < |queue| && queue[i] >= 0 ==> Reached(tree, par, threshold, picks, starts, queue[i])
  }

  ghost predicate Reached(tree: Tree, par: seq<int>, threshold: int, picks: set<int>, starts: seq<int>, n: int)
    requires Parents(tree, par) && QueueOk(tree, par, starts)
  {
    exists j :: 0 <= j < |starts| && ClimbTo(tree, par, threshold, picks, starts[j], n)
  }

  /** `v` is added by the revisits that start from the nodes `starts`. */
  ghost predicate Needed(tree: Tree, par: seq<int>, threshold: int, picks: set<int>, starts: seq<int>, v: int)
    requires Parents(tree, par) && QueueOk(tree, par, starts)
  {
    exists j :: 0 <= j < |starts| && FirstBig(tree, par, threshold, picks, starts[j], v)
  }

  lemma BigReached(tree: Tree, par: seq<int>, threshold: int, picks: set<int>, starts: seq<int>, n: nat)
    requires Parents(tree, par) && QueueOk(tree, par, starts) && n < |tree|
    requires Reached(tree, par, threshold, picks, starts, n) && Leaves(tree, n) >= threshold
    requires tree[n].centerid !in picks
    ensures Needed(tree, par, threshold, picks, starts, tree[n].centerid)
  {
    var j :| 0 <= j < |starts| && ClimbTo(tree, par, threshold, picks, starts[j], n);
    assert FirstBig(tree, par, threshold, picks, starts[j], tree[n].centerid);
  }

  lemma SmallReached(tree: Tree, par: seq<int>, threshold: int, picks: set<int>, starts: seq<int>, n: nat)
    requires Parents(tree, par) && QueueOk(tree, par, starts) && n < |tree|
    requires Reached(tree, par, threshold, picks, starts, n) && Leaves(tree, n) < threshold
    requires tree[n].centerid !in picks && par[n] >= 0
    ensures Reached(tree, par, threshold, picks, starts, par[n])
  {
    var j :| 0 <= j < |starts| && ClimbTo(tree, par, threshold, picks, starts[j], n);
    ClimbFurther(tree, par, threshold, picks, starts[j], n);
  }

  /** One turn of the revisit loop takes the first entry off the worklist. */
  ghost predicate Turned(tree: Tree, par: seq<int>, threshold: int, selected: set<int>, queue: seq<int>, out: set<int>,
      rest: seq<int>)
    requires Parents(tree, par) && QueueOk(tree, par, queue) && queue != []
  {
    var n := queue[0];
    if n < 0 || tree[n].centerid in selected then out == selected && rest == queue[1..]
    else if Leaves(tree, n) >= threshold then out == selected + {tree[n].centerid} && rest == queue[1..]
    else out == selected && rest == queue[1..] + [par[n]]
  }

  method RevisitFirst(tree: Tree, infos: array<NodeInfo>, selected: set<int>, queue: seq<int>, threshold: int,
      ghost par: seq<int>)
    returns (out: set<int>, needRevisit: seq<int>)
    requires Statistics(tree, par, infos[..]) && QueueOk(tree, par, queue) && queue != []
    ensures Turned(tree, par, threshold, selected, queue, out, needRevisit)
  {
    out := selected;
    var nodeId := queue[0];
    needRevisit := queue[1..];
    if nodeId >= 0 {
      var vectorId := tree[nodeId].centerid;
      if vectorId !in out {
        assert infos[..][nodeId].leafSize == Leaves(tree, nodeId) && infos[..][nodeId].parent == par[nodeId];
        if infos[nodeId].leafSize >= threshold {
          out := out + {vectorId};
        } else {
          needRevisit := needRevisit + [infos[nodeId].parent];
        }
      }
    }
  }

  lemma TurnShrinks(tree: Tree, par: seq<int>, threshold: int, selected: set<int>, queue: seq<int>, out: set<int>,
      rest: seq<int>)
    requires Parents(tree, par) && QueueOk(tree, par, queue) && queue != []
    requires Turned(tree, par, threshold, selected, queue, out, rest)
    ensures QueueOk(tree, par, rest) && 0 <= Weight(rest) < Weight(queue)
    ensures selected <= Centers(tree) ==> selected <= out <= Centers(tree)
  {
    var n := queue[0];
    if n >= 0 {
      WeightAppend(queue[1..], par[n]);
    }
    forall i | 0 <= i < |rest|
      ensures -1 <= rest[i] < |tree| && (rest[i] >= 0 ==> Under(par, 0, rest[i]))
    {
      if i < |queue| - 1 {
        assert rest[i] == queue[i + 1];
      }
    }
    WeightNonNegative(rest);
  }

  /** No climb is lost in a turn. */
  lemma TurnKeepsPending(tree: Tree, par: seq<int>, threshold: int, selected: set<int>, queue: seq<int>, out: set<int>,
      rest: seq<int>, n: int)
    requires Parents(tree, par) && QueueOk(tree, par, queue) && queue != []
    requires Turned(tree, par, threshold, selected, queue, out, rest)
    requires -1 <= n < |tree| && Pending(tree, par, threshold, selected, queue, n)
    ensures Pending(tree, par, threshold, out, rest, n)
  {
    forall i | 0 <= i < |queue| && -1 <= queue[i] < |tree|
      ensures Pending(tree, par, threshold, out, rest, queue[i])
    {
      if i > 0 {
        assert rest[i - 1] == queue[i];
      } else if rest != queue[1..] {
        assert rest[|rest| - 1] == par[queue[0]];
      }
    }
    PendingGrows(tree, par, threshold, selected, queue, out, rest, n);
  }

  /** A turn adds only what the climbs from `starts` reach first. */
  lemma TurnAddsNeeded(tree: Tree, par: seq<int>, threshold: int, picks: set<int>, starts: seq<int>,
      selected: set<int>, queue: seq<int>, out: set<int>, rest: seq<int>)
    requires Parents(tree, par) && QueueOk(tree, par, starts) && QueueOk(tree, par, queue) && queue != []
    requires Turned(tree, par, threshold, selected, queue, out, rest)
    requires picks <= selected && AllReached(tree, par, threshold, picks, starts, queue)
    requires forall v :: v in selected && v !in picks ==> Needed(tree, par, threshold, picks, starts, v)
    ensures AllReached(tree, par, threshold, picks, starts, rest)
    ensures forall v :: v in out && v !in picks ==> Needed(tree, par, threshold, picks, starts, v)
  {
    var n := queue[0];
    if n >= 0 && tree[n].centerid !in selected {
      if Leaves(tree, n) >= threshold {
        BigReached(tree, par, threshold, picks, starts, n);
      } else if par[n] >= 0 {
        SmallReached(tree, par, threshold, picks, starts, n);
      }
    }
    forall i | 0 <= i < |rest| && rest[i] >= 0
      ensures Reached(tree, par, threshold, picks, starts, rest[i])
    {
      if i < |queue| - 1 {
        assert rest[i] == queue[i + 1];
      }
    }
  }

  /**
    The revisit loop drains its worklist: every climb ends at a selected node or at the root, and only the first big
    node of a climb is added.
   */
  method Revisit(tree: Tree, infos: array<NodeInfo>, selected: set<int>, queue: seq<int>, threshold: int,
      ghost par: seq<int>)
    returns (out: set<int>)
    requires Statistics(tree, par, infos[..]) && QueueOk(tree, par, queue) && selected <= Centers(tree)
    ensures selected <= out <= Centers(tree)
    ensures forall v :: v in out && v !in selected ==> Needed(tree, par, threshold, selected, queue, v)
    ensures forall n :: -1 <= n < |tree| && Pending(tree, par, threshold, selected, queue, n) ==>
      Pending(tree, par, threshold, out, [], n)
  {
    out := selected;
    var needRevisit := queue;
    WeightNonNegative(needRevisit);
    StartsReached(tree, par, threshold, selected, queue);
    while needRevisit != []
      invariant selected <= out <= Centers(tree) && QueueOk(tree, par, needRevisit) && Weight(needRevisit) >= 0
      invariant forall v :: v in out && v !in selected ==> Needed(tree, par, threshold, selected, queue, v)
      invariant AllReached(tree, par, threshold, selected, queue, needRevisit)
      invariant forall n :: -1 <= n < |tree| && Pending(tree, par, threshold, selected, queue, n) ==>
        Pending(tree, par, threshold, out, needRevisit, n)
      decreases Weight(needRevisit)
    {
      ghost var s, q := out, needRevisit;
      out, needRevisit := RevisitFirst(tree, infos, out, needRevisit, threshold, par);
      TurnShrinks(tree, par, threshold, s, q, out, needRevisit);
      TurnAddsNeeded(tree, par, threshold, selected, queue, s, q, out, needRevisit);
      forall n | -1 <= n < |tree| && Pending(tree, par, threshold, s, q, n)
        ensures Pending(tree, par, threshold, out, needRevisit, n)
      {
        TurnKeepsPending(tree, par, threshold, s, q, out, needRevisit, n);
      }
    }
  }

  lemma StartsReached(tree: Tree, par: seq<int>, threshold: int, picks: set<int>, starts: seq<int>)
    requires Parents(tree, par) && QueueOk(tree, par, starts)
    ensures AllReached(tree, par, threshold, picks, starts, starts)
  {
    forall i | 0 <= i < |starts| && starts[i] >= 0
      ensures Reached(tree, par, threshold, picks, starts, starts[i])
    {
      assert ClimbTo(tree, par, threshold, picks, starts[i], starts[i]);
    }
  }

  // ----- the selection -----

  function CentersBetween(tree: Tree, lo: nat, hi: nat): set<int>
    requires hi <= |tree|
  {
    if lo >= hi then {} else CentersBetween(tree, lo, hi - 1) + {tree[hi - 1].centerid}
  }

  /** What a candidate of depth at most 1 selects by itself: its center when big, some of its children when very big. */
  function ShallowPick(tree: Tree, c: HeadCandidate, opts: Options): set<int>
    requires c.nodeID < |tree| && opts.splitFactor > 0 && tree[c.nodeID].childStart >= 0
    requires c.childrenSize > opts.splitThreshold ==>
      tree[c.nodeID].childStart + SplitCount(c.childrenSize, opts) <= |tree|
  {
    (if c.childrenSize >= opts.selectThreshold then {tree[c.nodeID].centerid} else {}) +
    (if c.childrenSize > opts.splitThreshold then
       CentersBetween(tree, tree[c.nodeID].childStart + 1, tree[c.nodeID].childStart + SplitCount(c.childrenSize, opts))
     else {})
  }

  /** The candidates the loop runs over can be picked from. */
  ghost predicate Pickable(tree: Tree, par: seq<int>, s: seq<HeadCandidate>, opts: Options)
    requires Parents(tree, par)
  {
    && opts.splitFactor > 0
    && (forall j :: 0 <= j < |s| ==> IsInner(tree, par, 0, s[j]))
    && (forall j :: 0 <= j < |s| && s[j].depth <= 1 && s[j].childrenSize > opts.splitThreshold ==>
          tree[s[j].nodeID].childStart + SplitCount(s[j].childrenSize, opts) <= |tree|)
  }

  ghost function ShallowPicks(tree: Tree, par: seq<int>, s: seq<HeadCandidate>, opts: Options): set<int>
    requires Parents(tree, par) && Pickable(tree, par, s, opts)
  {
    if s == [] then {}
    else
      ShallowPicks(tree, par, s[..|s| - 1], opts) +
      (if s[|s| - 1].depth <= 1 then ShallowPick(tree, s[|s| - 1], opts) else {})
  }

  /** Deeper candidates are taken in order until the limit is reached. */
  ghost function DeepFill(tree: Tree, par: seq<int>, s: seq<HeadCandidate>, selected: set<int>, limit: int): set<int>
    requires Parents(tree, par) && forall j :: 0 <= j < |s| ==> s[j].nodeID < |tree|
  {
    if s == [] || |selected| >= limit then selected
    else DeepFill(tree, par, s[1..], selected + {tree[s[0].nodeID].centerid}, limit)
  }

  lemma {:induction false} DeepFillGrows(tree: Tree, par: seq<int>, s: seq<HeadCandidate>, selected: set<int>,
      limit: int)
    requires Parents(tree, par) && forall j :: 0 <= j < |s| ==> s[j].nodeID < |tree|
    ensures selected <= DeepFill(tree, par, s, selected, limit)
    decreases |s|
  {
    if s != [] && |selected| < limit {
      DeepFillGrows(tree, par, s[1..], selected + {tree[s[0].nodeID].centerid}, limit);
    }
  }

  /** The candidate loop's treatment of one candidate of depth at most 1. */
  method PickShallow(tree: Tree, infos: array<NodeInfo>, c: HeadCandidate, opts: Options, selected: set<int>,
      queue: seq<int>, ghost par: seq<int>)
    returns (out: set<int>, needRevisit: seq<int>)
    requires Statistics(tree, par, infos[..]) && IsInner(tree, par, 0, c) && opts.splitFactor > 0
    requires c.childrenSize > opts.splitThreshold ==>
      tree[c.nodeID].childStart + SplitCount(c.childrenSize, opts) <= |tree|
    ensures out == selected + ShallowPick(tree, c, opts)
    ensures needRevisit ==
      if c.childrenSize < opts.selectThreshold && opts.recursiveCheck then queue + [par[c.nodeID]] else queue
  {
    out, needRevisit := selected, queue;
    if c.childrenSize >= opts.selectThreshold {
      out := out + {tree[c.nodeID].centerid};
    } else if opts.recursiveCheck {
      assert infos[..][c.nodeID].parent == par[c.nodeID];
      needRevisit := needRevisit + [infos[c.nodeID].parent];
    }
    if c.childrenSize > opts.splitThreshold {
      ghost var before := out;
      var start := tree[c.nodeID].childStart;
      var selectCount := CeilDiv(c.childrenSize, opts.splitFactor);
      var i := 1;
      while i < selectCount
        invariant 1 <= i && (i <= selectCount || i == 1)
        invariant out == before + CentersBetween(tree, start + 1, start + i)
      {
        out := out + {tree[start + i].centerid};
        i := i + 1;
      }
    }
  }

  /** After the candidates `s[..i]`, all of them shallow. */
  ghost predicate ShallowDone(tree: Tree, par: seq<int>, s: seq<HeadCandidate>, i: nat, opts: Options,
      selected: set<int>, queue: seq<int>)
    requires Parents(tree, par) && Pickable(tree, par, s, opts) && i <= |s|
  {
    && (forall j :: 0 <= j < i ==> s[j].depth <= 1)
    && QueueOk(tree, par, queue)
    && (forall x :: 0 <= x < |queue| ==> SmallStart(tree, par, s, i, opts, queue[x]))
    && selected == ShallowPicks(tree, par, s[..i], opts) <= Centers(tree)
    && AllPending(tree, par, s, i, opts, selected, queue)
  }

  /** `q` waits in the worklist because a small candidate is right below it. */
  ghost predicate SmallStart(tree: Tree, par: seq<int>, s: seq<HeadCandidate>, i: nat, opts: Options, q: int)
    requires Parents(tree, par) && Pickable(tree, par, s, opts) && i <= |s|
  {
    exists j :: 0 <= j < i && s[j].childrenSize < opts.selectThreshold && q == par[s[j].nodeID]
  }

  ghost predicate AllPending(tree: Tree, par: seq<int>, s: seq<HeadCandidate>, i: nat, opts: Options,
      selected: set<int>, queue: seq<int>)
    requires Parents(tree, par) && Pickable(tree, par, s, opts) && i <= |s|
  {
    opts.recursiveCheck ==> forall j :: 0 <= j < i ==>
      Pending(tree, par, opts.selectThreshold, selected, queue, s[j].nodeID)
  }

  lemma PicksAreCenters(tree: Tree, lo: nat, hi: nat)
    requires hi <= |tree|
    ensures CentersBetween(tree, lo, hi) <= Centers(tree)
  {
  }

  lemma StartsStay(tree: Tree, par: seq<int>, s: seq<HeadCandidate>, i: nat, opts: Options, queue: seq<int>,
      needRevisit: seq<int>)
    requires Parents(tree, par) && Pickable(tree, par, s, opts) && i < |s|
    requires forall x :: 0 <= x < |queue| ==> SmallStart(tree, par, s, i, opts, queue[x])
    requires needRevisit ==
      if s[i].childrenSize < opts.selectThreshold && opts.recursiveCheck then queue + [par[s[i].nodeID]] else queue
    ensures forall x :: 0 <= x < |needRevisit| ==> SmallStart(tree, par, s, i + 1, opts, needRevisit[x])
  {
    forall x | 0 <= x < |needRevisit|
      ensures SmallStart(tree, par, s, i + 1, opts, needRevisit[x])
    {
      if x < |queue| {
        assert needRevisit[x] == queue[x] && SmallStart(tree, par, s, i, opts, queue[x]);
      }
    }
  }

  /** No climb is lost when one more candidate is looked at. */
  lemma PendingStep(tree: Tree, par: seq<int>, s: seq<HeadCandidate>, i: nat, opts: Options, selected: set<int>,
      queue: seq<int>, out: set<int>, needRevisit: seq<int>)
    requires Parents(tree, par) && Pickable(tree, par, s, opts) && i < |s|
    requires AllPending(tree, par, s, i, opts, selected, queue)
    requires selected <= out && (s[i].childrenSize >= opts.selectThreshold ==> tree[s[i].nodeID].centerid in out)
    requires needRevisit ==
      if s[i].childrenSize < opts.selectThreshold && opts.recursiveCheck then queue + [par[s[i].nodeID]] else queue
    ensures AllPending(tree, par, s, i + 1, opts, out, needRevisit)
  {
    var n := s[i].nodeID;
    assert IsInner(tree, par, 0, s[i]);
    if opts.recursiveCheck {
      forall x | 0 <= x < |queue| && -1 <= queue[x] < |tree|
        ensures Pending(tree, par, opts.selectThreshold, out, needRevisit, queue[x])
      {
        assert needRevisit[x] == queue[x];
      }
      forall j | 0 <= j < i + 1
        ensures Pending(tree, par, opts.selectThreshold, out, needRevisit, s[j].nodeID)
      {
        if j < i {
          PendingGrows(tree, par, opts.selectThreshold, selected, queue, out, needRevisit, s[j].nodeID);
        } else if s[i].childrenSize < opts.selectThreshold {
          assert needRevisit[|queue|] == par[n];
        }
      }
    }
  }

  lemma MorePicks(tree: Tree, par: seq<int>, s: seq<HeadCandidate>, i: nat, opts: Options)
    requires Parents(tree, par) && Pickable(tree, par, s, opts) && i < |s| && s[i].depth <= 1
    ensures ShallowPicks(tree, par, s[..i + 1], opts) ==
      ShallowPicks(tree, par, s[..i], opts) + ShallowPick(tree, s[i], opts)
    ensures ShallowPick(tree, s[i], opts) <= Centers(tree)
  {
    var n := s[i].nodeID;
    assert s[..i + 1][..i] == s[..i];
    assert IsInner(tree, par, 0, s[i]);
    if s[i].childrenSize > opts.splitThreshold {
      PicksAreCenters(tree, tree[n].childStart + 1, tree[n].childStart + SplitCount(s[i].childrenSize, opts));
    }
    assert tree[n].centerid in Centers(tree);
  }

  lemma QueueStays(tree: Tree, par: seq<int>, s: seq<HeadCandidate>, i: nat, queue: seq<int>, needRevisit: seq<int>)
    requires Parents(tree, par) && i < |s| && IsInner(tree, par, 0, s[i]) && QueueOk(tree, par, queue)
    requires needRevisit == queue || needRevisit == queue + [par[s[i].nodeID]]
    ensures QueueOk(tree, par, needRevisit)
  {
  }

  /** One more shallow candidate. */
  lemma ShallowStep(tree: Tree, par: seq<int>, s: seq<HeadCandidate>, i: nat, opts: Options, selected: set<int>,
      queue: seq<int>, out: set<int>, needRevisit: seq<int>)
    requires Parents(tree, par) && Pickable(tree, par, s, opts) && i < |s| && s[i].depth <= 1
    requires ShallowDone(tree, par, s, i, opts, selected, queue)
    requires out == selected + ShallowPick(tree, s[i], opts)
    requires needRevisit ==
      if s[i].childrenSize < opts.selectThreshold && opts.recursiveCheck then queue + [par[s[i].nodeID]] else queue
    ensures ShallowDone(tree, par, s, i + 1, opts, out, needRevisit)
  {
    MorePicks(tree, par, s, i, opts);
    QueueStays(tree, par, s, i, queue, needRevisit);
    StartsStay(tree, par, s, i, opts, queue, needRevisit);
    PendingStep(tree, par, s, i, opts, selected, queue, out, needRevisit);
  }

  /** `v` is what a revisit adds: the center of the first big node above a small shallow one. */
  ghost predicate Added(tree: Tree, par: seq<int>, opts: Options, picks: set<int>, v: int)
    requires Parents(tree, par)
  {
    exists m :: IsShallow(tree, par, m) && Leaves(tree, m) < opts.selectThreshold
      && FirstBig(tree, par, opts.selectThreshold, picks, par[m], v)
  }

  /** The revisits add nothing else, and no climb from a shallow node is left open. */
  ghost predicate RevisitsDone(tree: Tree, par: seq<int>, opts: Options, picks: set<int>, revisited: set<int>)
    requires Parents(tree, par)
  {
    && (forall v :: v in revisited && v !in picks ==> Added(tree, par, opts, picks, v))
    && (forall m :: IsShallow(tree, par, m) ==> Pending(tree, par, opts.selectThreshold, revisited, [], m))
  }

  /**
    What the selection is, once the order of the candidates is fixed: the picks of the shallow nodes, the revisits when
    deep candidates follow, and the deep candidates in order up to the limit.
   */
  ghost predicate IsSelection(tree: Tree, par: seq<int>, vectorCount: nat, opts: Options, order: seq<HeadCandidate>,
      k: nat, n: nat, picks: set<int>, revisited: set<int>, selected: set<int>)
    requires Parents(tree, par) && Pickable(tree, par, order, opts)
  {
    && k <= n <= |order|
    && (forall j :: 0 <= j < |order| ==> (order[j].depth <= 1 <==> j < k))
    && (forall v :: v in picks <==> Picked(tree, par, opts, v))
    && picks <= revisited
    && (if opts.recursiveCheck && k < |order| then RevisitsDone(tree, par, opts, picks, revisited)
        else revisited == picks)
    && (exists limit :: IsLimit(limit, vectorCount, opts.ratio) && FillsTo(tree, order, k, n, revisited, limit))
    && selected == revisited + CentersOf(tree, order, k, n) - {vectorCount}
  }

  ghost predicate IsOrder(tree: Tree, order: seq<HeadCandidate>)
    requires WellFormed(tree)
  {
    DepthThenSize(order) && multiset(order) == multiset(Inner(tree, 0))
  }

  // ----- the loops give what the tree says -----

  lemma LimitIsLimit(vectorCount: nat, opts: Options)
    requires opts.ratio >= 0.0
    ensures IsLimit(SelectLimit(vectorCount, opts), vectorCount, opts.ratio)
  {
    var x := vectorCount as real * opts.ratio;
    assert x.Floor as real <= x < (x.Floor + 1) as real;
  }

  lemma BelowCeil(i: int, size: nat, f: int)
    requires f > 0
    ensures i < CeilDiv(size, f) <==> i * f < size
  {
    var q := CeilDiv(size, f);
    assert q * f <= size + f - 1 < q * f + f;
    if i < q {
      assert i * f <= (q - 1) * f == q * f - f;
    } else {
      assert i * f >= q * f;
    }
  }

  lemma {:induction false} CentersBetweenIff(tree: Tree, lo: nat, hi: nat, v: int)
    requires hi <= |tree|
    ensures v in CentersBetween(tree, lo, hi) <==> exists c :: lo <= c < hi && tree[c].centerid == v
  {
    if lo < hi {
      CentersBetweenIff(tree, lo, hi - 1, v);
    }
  }

  lemma PickIff(tree: Tree, c: HeadCandidate, opts: Options, v: int)
    requires WellFormed(tree) && c.nodeID < |tree| && opts.splitFactor > 0 && tree[c.nodeID].childStart >= 0
    requires c.childrenSize > opts.splitThreshold ==>
      tree[c.nodeID].childStart + SplitCount(c.childrenSize, opts) <= |tree|
    requires c.childrenSize == Leaves(tree, c.nodeID)
    ensures v in ShallowPick(tree, c, opts) <==> PickedAt(tree, c.nodeID, opts, v)
  {
    if c.childrenSize > opts.splitThreshold {
      ChildPickIff(tree, tree[c.nodeID].childStart, c.childrenSize, opts, v);
    }
  }

  lemma ChildPickIff(tree: Tree, start: nat, size: nat, opts: Options, v: int)
    requires opts.splitFactor > 0 && start + SplitCount(size, opts) <= |tree|
    ensures v in CentersBetween(tree, start + 1, start + SplitCount(size, opts)) <==>
      PickedChild(tree, start, size, opts.splitFactor, v)
  {
    var end := start + SplitCount(size, opts);
    CentersBetweenIff(tree, start + 1, end, v);
    if v in CentersBetween(tree, start + 1, end) {
      var c :| start + 1 <= c < end && tree[c].centerid == v;
      BelowCeil(c - start, size, opts.splitFactor);
    }
    if PickedChild(tree, start, size, opts.splitFactor, v) {
      var c :| start < c < |tree| && v == tree[c].centerid && (c - start) * opts.splitFactor < size;
      BelowCeil(c - start, size, opts.splitFactor);
    }
  }

  ghost predicate PickedBy(tree: Tree, c: HeadCandidate, opts: Options, v: int)
    requires WellFormed(tree)
  {
    c.depth <= 1 && c.nodeID < |tree| && PickedAt(tree, c.nodeID, opts, v)
  }

  lemma {:induction false} PicksIff(tree: Tree, par: seq<int>, s: seq<HeadCandidate>, opts: Options, v: int)
    requires Parents(tree, par) && Pickable(tree, par, s, opts)
    ensures v in ShallowPicks(tree, par, s, opts) <==>
      exists j :: 0 <= j < |s| && PickedBy(tree, s[j], opts, v)
  {
    if s != [] {
      var n := |s| - 1;
      PicksIff(tree, par, s[..n], opts, v);
      if s[n].depth <= 1 {
        PickIffAt(tree, par, s, opts, n, v);
      }
      assert forall j :: 0 <= j < n ==> s[..n][j] == s[j];
    }
  }

  lemma PickIffAt(tree: Tree, par: seq<int>, s: seq<HeadCandidate>, opts: Options, j: nat, v: int)
    requires Parents(tree, par) && Pickable(tree, par, s, opts) && j < |s| && s[j].depth <= 1
    ensures v in ShallowPick(tree, s[j], opts) <==> PickedAt(tree, s[j].nodeID, opts, v)
  {
    assert IsInner(tree, par, 0, s[j]);
    PickIff(tree, s[j], opts, v);
  }

  /** The shallow candidates pick what the shallow nodes pick. */
  lemma PicksArePicked(tree: Tree, par: seq<int>, vectorCount: nat, opts: Options, order: seq<HeadCandidate>, k: nat)
    requires Selectable(tree, par, vectorCount, opts) && IsOrder(tree, order) && Pickable(tree, par, order, opts)
    requires k <= |order| && forall j :: 0 <= j < |order| ==> (order[j].depth <= 1 <==> j < k)
    ensures forall v :: v in ShallowPicks(tree, par, order[..k], opts) <==> Picked(tree, par, opts, v)
  {
    OrderFacts(tree, par, vectorCount, opts, order);
    forall v
      ensures v in ShallowPicks(tree, par, order[..k], opts) <==> Picked(tree, par, opts, v)
    {
      PicksIff(tree, par, order[..k], opts, v);
      if Picked(tree, par, opts, v) {
        var n :| IsShallow(tree, par, n) && PickedAt(tree, n, opts, v);
        var j := PlaceOfNode(tree, par, vectorCount, opts, order, n);
        assert order[..k][j] == order[j] && PickedBy(tree, order[..k][j], opts, v);
      }
      if v in ShallowPicks(tree, par, order[..k], opts) {
        var j :| 0 <= j < k && PickedBy(tree, order[..k][j], opts, v);
        assert IsInner(tree, par, 0, order[j]);
        assert IsShallow(tree, par, order[j].nodeID);
      }
    }
  }

  lemma PlaceOfNode(tree: Tree, par: seq<int>, vectorCount: nat, opts: Options, order: seq<HeadCandidate>, n: int)
    returns (j: nat)
    requires Selectable(tree, par, vectorCount, opts) && IsOrder(tree, order) && IsShallow(tree, par, n)
    ensures j < |order| && order[j] == HeadCandidate(n, Leaves(tree, n), MinDepth(tree, n))
  {
    OrderFacts(tree, par, vectorCount, opts, order);
    var h := HeadCandidate(n, Leaves(tree, n), MinDepth(tree, n));
    assert IsInner(tree, par, 0, h);
    j :| 0 <= j < |order| && order[j] == h;
  }

  /** The limited fill adds the centers of a stretch of the candidates. */
  lemma {:induction false} FillIs(tree: Tree, par: seq<int>, order: seq<HeadCandidate>, k: nat, i: nat,
      start: set<int>, limit: int) returns (n: nat)
    requires Parents(tree, par) && k <= i <= |order| && forall j :: 0 <= j < |order| ==> order[j].nodeID < |tree|
    requires forall m :: k <= m < i ==> |start + CentersOf(tree, order, k, m)| < limit
    ensures i <= n <= |order| && FillsTo(tree, order, k, n, start, limit)
    ensures DeepFill(tree, par, order[i..], start + CentersOf(tree, order, k, i), limit) ==
      start + CentersOf(tree, order, k, n)
    decreases |order| - i
  {
    n := i;
    if i < |order| && |start + CentersOf(tree, order, k, i)| < limit {
      n := FillIs(tree, par, order, k, i + 1, start, limit);
      assert order[i..][1..] == order[i + 1..];
      assert start + CentersOf(tree, order, k, i + 1) ==
        start + CentersOf(tree, order, k, i) + {tree[order[i].nodeID].centerid};
    }
  }

  lemma OrderFacts(tree: Tree, par: seq<int>, vectorCount: nat, opts: Options, order: seq<HeadCandidate>)
    requires Selectable(tree, par, vectorCount, opts) && IsOrder(tree, order)
    ensures Pickable(tree, par, order, opts)
    ensures forall h :: IsInner(tree, par, 0, h) ==> h in order
  {
    InnerMembers(tree, par, 0);
    forall j | 0 <= j < |order|
      ensures IsInner(tree, par, 0, order[j])
    {
      assert order[j] in multiset(order);
    }
    forall h | IsInner(tree, par, 0, h)
      ensures h in order
    {
      assert h in multiset(order);
    }
  }

  /** Every leaf with a big proper ancestor other than the root ends up with a head at or above it. */
  ghost predicate BigCovered(tree: Tree, par: seq<int>, threshold: int, selected: set<int>)
    requires Parents(tree, par)
  {
    forall l, a ::
      0 <= l < |tree| && 0 < a < |tree| && IsLeaf(tree, l) && a != l && Under(par, 0, a) && Under(par, a, l)
        && Leaves(tree, a) >= threshold
      ==> HasHead(tree, par, selected, 0, l)
  }

  lemma ParentOfLeaf(tree: Tree, par: seq<int>, a: nat, l: nat) returns (h: HeadCandidate)
    requires Parents(tree, par) && 0 < a < |tree| && l < |tree| && IsLeaf(tree, l) && a != l && Under(par, 0, a)
      && Under(par, a, l)
    ensures h.nodeID == par[l] && IsInner(tree, par, 0, h) && Under(par, a, h.nodeID) && h.depth <= 1
  {
    var p := par[l];
    assert Under(par, a, p);
    UnderTransitive(tree, par, 0, a, p);
    assert IsChild(tree, p, l);
    assert Under(par, p, p) && Under(par, p, l);
    DepthBounds(tree, par, p, l);
    assert Steps(par, p, p) == 0 && Steps(par, p, l) == 1;
    h := HeadCandidate(p, Leaves(tree, p), MinDepth(tree, p));
  }

  /** With the worklist drained, big subtrees are covered. */
  lemma DrainedCovers(tree: Tree, par: seq<int>, vectorCount: nat, opts: Options, order: seq<HeadCandidate>, k: nat,
      selected: set<int>)
    requires Selectable(tree, par, vectorCount, opts) && IsOrder(tree, order) && Pickable(tree, par, order, opts)
      && k <= |order|
    requires forall j :: 0 <= j < |order| ==> (order[j].depth <= 1 <==> j < k)
    requires opts.recursiveCheck && AllPending(tree, par, order, k, opts, selected, [])
    ensures BigCovered(tree, par, opts.selectThreshold, selected - {vectorCount})
  {
    OrderFacts(tree, par, vectorCount, opts, order);
    forall l, a | 0 <= l < |tree| && 0 < a < |tree| && IsLeaf(tree, l) && a != l && Under(par, 0, a) && Under(par, a, l)
      && Leaves(tree, a) >= opts.selectThreshold
      ensures HasHead(tree, par, selected - {vectorCount}, 0, l)
    {
      var h := ParentOfLeaf(tree, par, a, l);
      var j :| 0 <= j < |order| && order[j] == h;
      PendingCovers(tree, par, opts.selectThreshold, selected, h.nodeID, a);
      var x :| 0 <= x < |tree| && Under(par, a, x) && Under(par, x, h.nodeID) && tree[x].centerid in selected;
      UnderOrder(tree, par, a, x);
      UnderTransitive(tree, par, 0, a, x);
      assert Under(par, x, l);
    }
  }

  /** When no candidate is deep, every big inner node was selected by itself. */
  lemma AllShallowCovers(tree: Tree, par: seq<int>, vectorCount: nat, opts: Options, order: seq<HeadCandidate>)
    requires Selectable(tree, par, vectorCount, opts) && IsOrder(tree, order) && Pickable(tree, par, order, opts)
    requires forall j :: 0 <= j < |order| ==> order[j].depth <= 1
    ensures BigCovered(tree, par, opts.selectThreshold, ShallowPicks(tree, par, order, opts) - {vectorCount})
  {
    OrderFacts(tree, par, vectorCount, opts, order);
    forall l, a | 0 <= l < |tree| && 0 < a < |tree| && IsLeaf(tree, l) && a != l && Under(par, 0, a) && Under(par, a, l)
      && Leaves(tree, a) >= opts.selectThreshold
      ensures HasHead(tree, par, ShallowPicks(tree, par, order, opts) - {vectorCount}, 0, l)
    {
      var c := UnderChild(tree, par, a, l);
      var h := HeadCandidate(a, Leaves(tree, a), MinDepth(tree, a));
      assert IsInner(tree, par, 0, h);
      var j :| 0 <= j < |order| && order[j] == h;
      PickIncluded(tree, par, order, opts, j);
    }
  }

  lemma {:induction false} PickIncluded(tree: Tree, par: seq<int>, s: seq<HeadCandidate>, opts: Options, j: nat)
    requires Parents(tree, par) && Pickable(tree, par, s, opts) && j < |s| && s[j].depth <= 1
    ensures ShallowPick(tree, s[j], opts) <= ShallowPicks(tree, par, s, opts)
    decreases |s|
  {
    if j < |s| - 1 {
      PickIncluded(tree, par, s[..|s| - 1], opts, j);
    }
  }

  /** The statistics, the sorted candidates, and a selection that is still empty. */
  method Describe(tree: Tree, ghost vectorCount: nat, ghost opts: Options, ghost par: seq<int>)
    returns (infos: array<NodeInfo>, candidates: seq<HeadCandidate>)
    requires Selectable(tree, par, vectorCount, opts)
    ensures fresh(infos) && Statistics(tree, par, infos[..])
    ensures IsOrder(tree, candidates) && Pickable(tree, par, candidates, opts)
  {
    infos := new NodeInfo[|tree|](_ => FRESH_INFO);
    ghost var before := infos[..];
    candidates := DfsSelect(tree, 0, infos, [], par);
    forall m | 0 <= m < |tree| && Under(par, 0, m)
      ensures infos[..][m].leafSize == Leaves(tree, m) && infos[..][m].parent == par[m]
    {
      assert before[0].parent == -1;
    }
    assert candidates == Inner(tree, 0);
    SortByCorrect(candidates, CandidateLe);
    candidates := SortBy(candidates, CandidateLe);
    assert forall i, j :: 0 <= i < j < |candidates| ==> CandidateLe(candidates[i], candidates[j]);
    OrderFacts(tree, par, vectorCount, opts, candidates);
  }

  /** The candidates still to come are all deep, and the worklist will not be used again. */
  ghost predicate DeepPhase(tree: Tree, par: seq<int>, order: seq<HeadCandidate>, k: nat, i: nat, opts: Options,
      revisited: set<int>, selected: set<int>, queue: seq<int>, limit: int)
    requires Parents(tree, par) && Pickable(tree, par, order, opts)
  {
    && k <= i <= |order| && k < |order|
    && (forall j :: 0 <= j < |order| ==> (order[j].depth <= 1 <==> j < k))
    && (opts.recursiveCheck ==> queue == []) && QueueOk(tree, par, queue)
    && AllPending(tree, par, order, k, opts, revisited, [])
    && ShallowPicks(tree, par, order[..k], opts) <= revisited
    && (forall v :: v in revisited && v !in ShallowPicks(tree, par, order[..k], opts) ==>
      Added(tree, par, opts, ShallowPicks(tree, par, order[..k], opts), v))
    && (!opts.recursiveCheck ==> revisited == ShallowPicks(tree, par, order[..k], opts))
    && DeepFill(tree, par, order[k..], revisited, limit) == DeepFill(tree, par, order[i..], selected, limit)
  }

  /** The state between two candidates: still among the shallow ones, or past them. */
  ghost predicate Between(tree: Tree, par: seq<int>, order: seq<HeadCandidate>, nextDepth: nat, k: nat, i: nat,
      opts: Options, revisited: set<int>, selected: set<int>, queue: seq<int>, limit: int)
    requires Parents(tree, par) && Pickable(tree, par, order, opts) && i <= |order|
  {
    if nextDepth <= 1 then ShallowDone(tree, par, order, i, opts, selected, queue)
    else DeepPhase(tree, par, order, k, i, opts, revisited, selected, queue, limit)
  }

  /** What the worklist of the shallow candidates adds. */
  lemma NeededIsAdded(tree: Tree, par: seq<int>, order: seq<HeadCandidate>, i: nat, opts: Options, picks: set<int>,
      queue: seq<int>, nextDepth: nat)
    requires Parents(tree, par) && Pickable(tree, par, order, opts) && i <= |order| && QueueOk(tree, par, queue)
    requires nextDepth == 1 ==> ShallowDone(tree, par, order, i, opts, picks, queue)
    ensures nextDepth == 1 ==> forall v :: Needed(tree, par, opts.selectThreshold, picks, queue, v) ==>
      Added(tree, par, opts, picks, v)
  {
    if nextDepth == 1 {
      forall v | Needed(tree, par, opts.selectThreshold, picks, queue, v)
        ensures Added(tree, par, opts, picks, v)
      {
        var x :| 0 <= x < |queue| && FirstBig(tree, par, opts.selectThreshold, picks, queue[x], v);
        assert SmallStart(tree, par, order, i, opts, queue[x]);
        var j :| 0 <= j < i && order[j].childrenSize < opts.selectThreshold && queue[x] == par[order[j].nodeID];
        assert IsInner(tree, par, 0, order[j]) && IsShallow(tree, par, order[j].nodeID);
      }
    }
  }

  /** Candidate `i` is deeper than what came before: the worklist is drained, and everything from here on is deep. */
  method GoDeeper(tree: Tree, infos: array<NodeInfo>, ghost order: seq<HeadCandidate>, ghost i: nat, opts: Options,
      selected: set<int>, queue: seq<int>, ghost nextDepth: nat, ghost k: nat, ghost revisited: set<int>,
        ghost limit: int, ghost par: seq<int>)
    returns (out: set<int>, needRevisit: seq<int>, ghost k': nat, ghost revisited': set<int>)
    requires Statistics(tree, par, infos[..]) && Pickable(tree, par, order, opts) && DepthThenSize(order)
    requires nextDepth >= 1 && i < |order| && order[i].depth > nextDepth
    requires Between(tree, par, order, nextDepth, k, i, opts, revisited, selected, queue, limit)
    ensures DeepPhase(tree, par, order, k', i, opts, revisited', out, needRevisit, limit)
  {
    out, needRevisit := selected, queue;
    if opts.recursiveCheck && needRevisit != [] {
      out := Revisit(tree, infos, selected, needRevisit, opts.selectThreshold, par);
      NeededIsAdded(tree, par, order, i, opts, selected, needRevisit, nextDepth);
      needRevisit := [];
    }
    if nextDepth == 1 {
      k', revisited' := i, out;
      forall j | i <= j < |order|
        ensures order[j].depth > 1
      {
        assert j > i ==> order[i].depth <= order[j].depth;
      }
    } else {
      k', revisited' := k, revisited;
    }
  }

  lemma FinishShallow(tree: Tree, par: seq<int>, vectorCount: nat, opts: Options, order: seq<HeadCandidate>,
      filled: set<int>, queue: seq<int>)
    requires Selectable(tree, par, vectorCount, opts) && IsOrder(tree, order) && Pickable(tree, par, order, opts)
    requires ShallowDone(tree, par, order, |order|, opts, filled, queue)
    ensures IsSelection(tree, par, vectorCount, opts, order, |order|, |order|, filled, filled, filled - {vectorCount})
    ensures BigCovered(tree, par, opts.selectThreshold, filled - {vectorCount})
  {
    assert order[..|order|] == order;
    AllShallowCovers(tree, par, vectorCount, opts, order);
    PicksArePicked(tree, par, vectorCount, opts, order, |order|);
    LimitIsLimit(vectorCount, opts);
    assert FillsTo(tree, order, |order|, |order|, filled, SelectLimit(vectorCount, opts));
    assert CentersOf(tree, order, |order|, |order|) == {};
  }

  /** The picks and revisits are those of the shallow nodes. */
  lemma FinishRevisits(tree: Tree, par: seq<int>, vectorCount: nat, opts: Options, order: seq<HeadCandidate>, k: nat,
      i: nat, revisited: set<int>, selected: set<int>, queue: seq<int>, limit: int)
    requires Selectable(tree, par, vectorCount, opts) && IsOrder(tree, order) && Pickable(tree, par, order, opts)
    requires DeepPhase(tree, par, order, k, i, opts, revisited, selected, queue, limit)
    ensures forall v :: v in ShallowPicks(tree, par, order[..k], opts) <==> Picked(tree, par, opts, v)
    ensures opts.recursiveCheck ==>
      RevisitsDone(tree, par, opts, ShallowPicks(tree, par, order[..k], opts), revisited)
  {
    PicksArePicked(tree, par, vectorCount, opts, order, k);
    if opts.recursiveCheck {
      forall m | IsShallow(tree, par, m)
        ensures Pending(tree, par, opts.selectThreshold, revisited, [], m)
      {
        var j := PlaceOfNode(tree, par, vectorCount, opts, order, m);
      }
    }
  }

  lemma FinishDeep(tree: Tree, par: seq<int>, vectorCount: nat, opts: Options, order: seq<HeadCandidate>, k: nat,
      i: nat, revisited: set<int>, selected: set<int>, filled: set<int>, queue: seq<int>)
    returns (n: nat)
    requires Selectable(tree, par, vectorCount, opts) && IsOrder(tree, order) && Pickable(tree, par, order, opts)
    requires DeepPhase(tree, par, order, k, i, opts, revisited, selected, queue, SelectLimit(vectorCount, opts))
    requires filled == DeepFill(tree, par, order[k..], revisited, SelectLimit(vectorCount, opts))
    ensures IsSelection(tree, par, vectorCount, opts, order, k, n, ShallowPicks(tree, par, order[..k], opts), revisited,
      filled - {vectorCount})
  {
    var limit := SelectLimit(vectorCount, opts);
    FinishRevisits(tree, par, vectorCount, opts, order, k, i, revisited, selected, queue, limit);
    LimitIsLimit(vectorCount, opts);
    n := FillIs(tree, par, order, k, k, revisited, limit);
    assert revisited + CentersOf(tree, order, k, k) == revisited;
  }

  lemma FinishCovers(tree: Tree, par: seq<int>, vectorCount: nat, opts: Options, order: seq<HeadCandidate>, k: nat,
      i: nat, revisited: set<int>, selected: set<int>, filled: set<int>, queue: seq<int>, limit: int)
    requires Selectable(tree, par, vectorCount, opts) && IsOrder(tree, order) && Pickable(tree, par, order, opts)
    requires DeepPhase(tree, par, order, k, i, opts, revisited, selected, queue, limit) && opts.recursiveCheck
    requires filled == DeepFill(tree, par, order[k..], revisited, limit)
    ensures BigCovered(tree, par, opts.selectThreshold, filled - {vectorCount})
  {
    DeepFillGrows(tree, par, order[k..], revisited, limit);
    DrainedCovers(tree, par, vectorCount, opts, order, k, revisited);
  }

  /** Wherever the loop stopped, the result is the selection described and covers what it must. */
  lemma Finish(tree: Tree, par: seq<int>, vectorCount: nat, opts: Options, order: seq<HeadCandidate>, nextDepth: nat,
      k: nat, i: nat, revisited: set<int>, filled: set<int>, queue: seq<int>)
    returns (k': nat, n: nat, picks: set<int>, revisited': set<int>)
    requires Selectable(tree, par, vectorCount, opts) && IsOrder(tree, order) && Pickable(tree, par, order, opts)
      && i <= |order|
    requires i == |order| || nextDepth > 1
    requires Between(tree, par, order, nextDepth, k, i, opts, revisited, filled, queue, SelectLimit(vectorCount, opts))
    requires nextDepth > 1 ==> filled == DeepFill(tree, par, order[k..], revisited, SelectLimit(vectorCount, opts))
    ensures IsSelection(tree, par, vectorCount, opts, order, k', n, picks, revisited', filled - {vectorCount})
    ensures opts.recursiveCheck ==> BigCovered(tree, par, opts.selectThreshold, filled - {vectorCount})
  {
    if nextDepth <= 1 {
      k', n, picks, revisited' := |order|, |order|, filled, filled;
      FinishShallow(tree, par, vectorCount, opts, order, filled, queue);
    } else {
      k', picks, revisited' := k, ShallowPicks(tree, par, order[..k], opts), revisited;
      n := FinishDeep(tree, par, vectorCount, opts, order, k, i, revisited, filled, filled, queue);
      if opts.recursiveCheck {
        FinishCovers(tree, par, vectorCount, opts, order, k, i, revisited, filled, filled, queue,
          SelectLimit(vectorCount, opts));
      }
    }
  }

  /** Candidate `i`, once the worklist has been looked after; tells whether the limit stops the loop. */
  method TakeCandidate(tree: Tree, infos: array<NodeInfo>, order: seq<HeadCandidate>, i: nat, opts: Options,
      selected: set<int>, queue: seq<int>, nextDepth: nat, limit: int, ghost k: nat, ghost revisited: set<int>,
        ghost par: seq<int>)
    returns (stop: bool, out: set<int>, needRevisit: seq<int>)
    requires Statistics(tree, par, infos[..]) && Pickable(tree, par, order, opts) && i < |order| && 1 <= nextDepth
    requires order[i].depth <= nextDepth
    requires Between(tree, par, order, nextDepth, k, i, opts, revisited, selected, queue, limit)
    ensures !stop ==> Between(tree, par, order, nextDepth, k, i + 1, opts, revisited, out, needRevisit, limit)
    ensures stop ==> nextDepth > 1 && DeepPhase(tree, par, order, k, i, opts, revisited, out, needRevisit, limit)
    ensures stop ==> out == DeepFill(tree, par, order[k..], revisited, limit)
  {
    stop, out, needRevisit := false, selected, queue;
    if order[i].depth <= 1 {
      out, needRevisit := PickShallow(tree, infos, order[i], opts, selected, queue, par);
      ShallowStep(tree, par, order, i, opts, selected, queue, out, needRevisit);
    } else if |selected| >= limit {
      stop := true;
    } else {
      out := out + {tree[order[i].nodeID].centerid};
    }
  }

  /** All that holds when the loop looks at candidate `n`; `stop` says that the limit ended it there. */
  ghost predicate Taken(tree: Tree, par: seq<int>, order: seq<HeadCandidate>, depth: nat, k: nat, n: nat,
      opts: Options, revisited: set<int>, selected: set<int>, queue: seq<int>, limit: int, stop: bool)
    requires Parents(tree, par) && Pickable(tree, par, order, opts)
  {
    && n <= |order| && depth >= 1 && Between(tree, par, order, depth, k, n, opts, revisited, selected, queue, limit)
    && (stop ==> depth > 1 && selected == DeepFill(tree, par, order[k..], revisited, limit))
  }

  /** One turn of the loop. */
  method TakeNext(tree: Tree, infos: array<NodeInfo>, order: seq<HeadCandidate>, n: nat, opts: Options,
      selected: set<int>, queue: seq<int>, depth: nat, limit: int, ghost k: nat, ghost revisited: set<int>,
        ghost par: seq<int>)
    returns (stop: bool, out: set<int>, needRevisit: seq<int>, nextDepth: nat, ghost k': nat,
      ghost revisited': set<int>)
    requires Statistics(tree, par, infos[..]) && Pickable(tree, par, order, opts) && DepthThenSize(order)
      && n < |order|
    requires Taken(tree, par, order, depth, k, n, opts, revisited, selected, queue, limit, false)
    ensures Taken(tree, par, order, nextDepth, k', if stop then n else n + 1, opts,
      revisited', out, needRevisit, limit, stop)
  {
    out, needRevisit, nextDepth, k', revisited' := selected, queue, depth, k, revisited;
    if order[n].depth > depth {
      out, needRevisit, k',
        revisited' := GoDeeper(tree, infos, order, n, opts, selected, queue, depth, k, revisited, limit, par);
      nextDepth := order[n].depth;
    }
    stop, out, needRevisit :=
      TakeCandidate(tree, infos, order, n, opts, out, needRevisit, nextDepth, limit, k', revisited', par);
  }

  /** The loop over the sorted candidates. */
  method TakeCandidates(tree: Tree, infos: array<NodeInfo>, order: seq<HeadCandidate>, opts: Options, limit: int,
      ghost par: seq<int>)
    returns (selected: set<int>, ghost nextDepth: nat, ghost k: nat, ghost i: nat, ghost revisited: set<int>,
      ghost queue: seq<int>)
    requires Statistics(tree, par, infos[..]) && Pickable(tree, par, order, opts) && DepthThenSize(order)
    ensures i <= |order| && (i == |order| || nextDepth > 1)
    ensures Between(tree, par, order, nextDepth, k, i, opts, revisited, selected, queue, limit)
    ensures nextDepth > 1 ==> selected == DeepFill(tree, par, order[k..], revisited, limit)
  {
    selected, k, revisited := {}, 0, {};
    var needRevisit: seq<int> := [];
    var depth, n, stop := 1, 0, false;
    while n < |order| && !stop
      invariant n <= |order|
        && Taken(tree, par, order, depth, k, n, opts, revisited, selected, needRevisit, limit, stop)
      decreases |order| - n, if stop then 0 else 1
    {
      stop, selected, needRevisit, depth, k, revisited :=
        TakeNext(tree, infos, order, n, opts, selected, needRevisit, depth, limit, k, revisited, par);
      if !stop {
        n := n + 1;
      }
    }
    nextDepth, i, queue := depth, n, needRevisit;
  }

  /**
    The static selection. Whatever order equal candidates are sorted in, the result is the one `IsSelection` describes;
    with the recursive check on, every leaf below a big node other than the root is covered, and `DfsCovered` says so.
   */
  method SelectHeadStatically(tree: Tree, vectorCount: nat, opts: Options, ghost par: seq<int>)
    returns (selected: set<int>, covered: nat, ghost order: seq<HeadCandidate>, ghost k: nat, ghost n: nat,
      ghost picks: set<int>, ghost revisited: set<int>)
    requires Selectable(tree, par, vectorCount, opts)
    ensures IsOrder(tree, order) && Pickable(tree, par, order, opts)
    ensures IsSelection(tree, par, vectorCount, opts, order, k, n, picks, revisited, selected)
    ensures opts.recursiveCheck ==> BigCovered(tree, par, opts.selectThreshold, selected)
    ensures covered == |CoveredLeaves(tree, par, selected, 0, false)|
  {
    var infos, candidates := Describe(tree, vectorCount, opts, par);
    order := candidates;
    ghost var nextDepth, k0, i, revisited0, queue;
    selected, nextDepth, k0, i, revisited0,
      queue := TakeCandidates(tree, infos, candidates, opts, SelectLimit(vectorCount, opts), par);
    k, n, picks, revisited :=
      Finish(tree, par, vectorCount, opts, order, nextDepth, k0, i, revisited0, selected, queue);
    selected := selected - {vectorCount};
    covered := Covered(tree, 0, selected, false);
    CoveredCount(tree, par, 0, selected, false);
  }
}
