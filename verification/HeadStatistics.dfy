/**
  `DfsSelect`: the recursion that describes a tree to the head selection, node by node, and lists its inner nodes.
 */
module HeadStatistics {
  import opened Sets
  import opened BKTree

  datatype NodeInfo = NodeInfo(leafSize: int, minDepth: int, maxDepth: int, parent: int)

  const FRESH_INFO := NodeInfo(0, INT32_MAX, 0, -1)

  datatype HeadCandidate = HeadCandidate(nodeID: nat, childrenSize: nat, depth: nat)

  /** `DfsSelect` tests for -1 where the tree may hold other negative values (collapsed clusters). */
  ghost predicate NoCollapsed(tree: Tree) {
    forall n :: 0 <= n < |tree| && tree[n].childStart < 0 ==> tree[n].childStart == -1
  }

  /** The inner nodes below `n`, children first. */
  function Inner(tree: Tree, n: nat): seq<HeadCandidate>
    requires WellFormed(tree) && n < |tree|
    decreases |tree| - n, 0
  {
    if IsLeaf(tree, n) then []
    else InnerIn(tree, tree[n].childStart, tree[n].childEnd) + [HeadCandidate(n, Leaves(tree, n), MinDepth(tree, n))]
  }

  function InnerIn(tree: Tree, lo: nat, hi: nat): seq<HeadCandidate>
    requires WellFormed(tree) && lo <= hi <= |tree|
    decreases |tree| - lo, hi - lo
  {
    if lo == hi then [] else InnerIn(tree, lo, hi - 1) + Inner(tree, hi - 1)
  }

  /** The candidates are exactly the inner nodes below `n`, with their true leaf counts and depths. */
  lemma {:induction false} InnerMembers(tree: Tree, par: seq<int>, n: nat)
    requires Parents(tree, par) && n < |tree|
    ensures forall h :: h in Inner(tree, n) <==> IsInner(tree, par, n, h)
    decreases |tree| - n, 1, 0
  {
    if IsLeaf(tree, n) {
      forall h
        ensures !IsInner(tree, par, n, h)
      {
        if IsInner(tree, par, n, h) && h.nodeID != n {
          var c := UnderChild(tree, par, n, h.nodeID);
        }
      }
    } else {
      var lo, hi := tree[n].childStart, tree[n].childEnd;
      forall c | lo <= c < hi
        ensures par[c] == n
      {
        assert IsChild(tree, n, c);
      }
      InnerInMembers(tree, par, lo, hi);
      forall h
        ensures h in Inner(tree, n) <==> IsInner(tree, par, n, h)
      {
        if IsInner(tree, par, n, h) && h.nodeID != n {
          var c := UnderChild(tree, par, n, h.nodeID);
          assert IsInner(tree, par, c, h);
        } else if h in InnerIn(tree, lo, hi) {
          var c :| lo <= c < hi && IsInner(tree, par, c, h);
          UnderTransitive(tree, par, n, c, h.nodeID);
        }
      }
    }
  }

  ghost predicate IsInner(tree: Tree, par: seq<int>, n: nat, h: HeadCandidate)
    requires Parents(tree, par) && n < |tree|
  {
    && h.nodeID < |tree| && !IsLeaf(tree, h.nodeID) && Under(par, n, h.nodeID)
    && h.childrenSize == Leaves(tree, h.nodeID) && h.depth == MinDepth(tree, h.nodeID)
  }

  lemma {:induction false} InnerInMembers(tree: Tree, par: seq<int>, lo: nat, hi: nat)
    requires Parents(tree, par) && lo <= hi <= |tree|
    ensures forall h :: h in InnerIn(tree, lo, hi) <==> exists c :: lo <= c < hi && IsInner(tree, par, c, h)
    decreases |tree| - lo, 2, hi - lo
  {
    if lo < hi {
      InnerInMembers(tree, par, lo, hi - 1);
      InnerMembers(tree, par, hi - 1);
    }
  }

  // ----- DfsSelect -----

  /** The statistics of node `m` are in place, its parent link aside. */
  ghost predicate Described(tree: Tree, infos: seq<NodeInfo>, m: nat)
    requires WellFormed(tree) && |infos| == |tree| && m < |tree|
  {
    infos[m].leafSize == Leaves(tree, m) && infos[m].minDepth == MinDepth(tree, m)
      && infos[m].maxDepth == MaxDepth(tree, m)
  }

  /** `after` describes the subtree of `n` exactly and leaves everything else as it was before. */
  ghost predicate SubtreeDescribed(tree: Tree, par: seq<int>, before: seq<NodeInfo>, after: seq<NodeInfo>, n: nat)
    requires Parents(tree, par) && |before| == |after| == |tree| && n < |tree|
  {
    && after[n].parent == before[n].parent
    && forall m :: 0 <= m < |tree| ==>
         if Under(par, n, m) then Described(tree, after, m) && (m != n ==> after[m].parent == par[m])
           else after[m] == before[m]
  }

  ghost predicate SubtreeFresh(par: seq<int>, infos: seq<NodeInfo>, n: nat)
    requires forall c :: 0 <= c < |par| ==> -1 <= par[c] < c
    requires |infos| == |par|
  {
    forall m :: 0 <= m < |infos| && Under(par, n, m) ==> infos[m].(parent := -1) == FRESH_INFO
  }

  /** After the children `lo` to `c` of `n`: their subtrees are described, the rest of `n`'s subtree is still fresh. */
  ghost predicate ChildrenDescribed(tree: Tree, par: seq<int>, before: seq<NodeInfo>, now: seq<NodeInfo>, n: nat,
      c: nat)
    requires Parents(tree, par) && |before| == |now| == |tree| && n < |tree| && !IsLeaf(tree, n)
  {
    forall m :: 0 <= m < |tree| && m != n ==>
      if UnderOneOf(par, tree[n].childStart, c, m) then Described(tree, now, m) && now[m].parent == par[m]
      else now[m] == before[m]
  }

  /** The subtree of child `c` is untouched while its elder siblings are described. */
  lemma ChildStillFresh(tree: Tree, par: seq<int>, before: seq<NodeInfo>, now: seq<NodeInfo>, n: nat, c: nat)
    requires Parents(tree, par) && |before| == |now| == |tree| && n < |tree| && !IsLeaf(tree, n) && IsChild(tree, n, c)
    requires SubtreeFresh(par, before, n) && ChildrenDescribed(tree, par, before, now, n, c)
    ensures SubtreeFresh(par, now[c := now[c].(parent := n)], c)
  {
    forall m | 0 <= m < |tree| && Under(par, c, m)
      ensures now[m] == before[m] && Under(par, n, m)
    {
      UnderOrder(tree, par, c, m);
      NotUnderElder(tree, par, n, c, m);
      assert Under(par, n, c);
      UnderTransitive(tree, par, n, c, m);
    }
  }

  lemma NotUnderElder(tree: Tree, par: seq<int>, n: nat, c: nat, m: nat)
    requires Parents(tree, par) && n < |tree| && !IsLeaf(tree, n) && IsChild(tree, n, c) && m < |tree|
      && Under(par, c, m)
    ensures !UnderOneOf(par, tree[n].childStart, c, m)
  {
    forall d | tree[n].childStart <= d < c
      ensures !Under(par, d, m)
    {
      assert IsChild(tree, n, d);
      SiblingsDisjoint(tree, par, c, d, m);
    }
  }

  lemma ChildStep(tree: Tree, par: seq<int>, before: seq<NodeInfo>, now: seq<NodeInfo>, after: seq<NodeInfo>, n: nat,
      c: nat)
    requires Parents(tree, par) && |before| == |now| == |after| == |tree| && n < |tree| && !IsLeaf(tree, n)
      && IsChild(tree, n, c)
    requires ChildrenDescribed(tree, par, before, now, n, c)
    requires SubtreeDescribed(tree, par, now[c := now[c].(parent := n)], after, c)
    ensures ChildrenDescribed(tree, par, before, after, n, c + 1) && after[n] == now[n] && Described(tree, after, c)
  {
    assert Under(par, c, c);
    if Under(par, c, n) {
      UnderOrder(tree, par, c, n);
    }
    forall m | 0 <= m < |tree| && m != n
      ensures if UnderOneOf(par, tree[n].childStart, c + 1, m) then Described(tree, after, m)
        && after[m].parent == par[m] else after[m] == before[m]
    {
      assert UnderOneOf(par, tree[n].childStart, c + 1, m) <==>
        UnderOneOf(par, tree[n].childStart, c, m) || Under(par, c, m);
      if Under(par, c, m) {
        NotUnderElder(tree, par, n, c, m);
      }
    }
  }

  /** When all children are described, so is everything below `n`. */
  lemma ChildrenComplete(tree: Tree, par: seq<int>, before: seq<NodeInfo>, now: seq<NodeInfo>, n: nat)
    requires Parents(tree, par) && |before| == |now| == |tree| && n < |tree| && !IsLeaf(tree, n)
    requires ChildrenDescribed(tree, par, before, now, n, tree[n].childEnd)
    requires Described(tree, now, n) && now[n].parent == before[n].parent
    ensures SubtreeDescribed(tree, par, before, now, n)
  {
    forall m | 0 <= m < |tree| && m != n
      ensures Under(par, n, m) <==> UnderOneOf(par, tree[n].childStart, tree[n].childEnd, m)
    {
      if Under(par, n, m) {
        var c := UnderChild(tree, par, n, m);
      } else {
        forall c | tree[n].childStart <= c < tree[n].childEnd
          ensures !Under(par, c, m)
        {
          assert IsChild(tree, n, c) && Under(par, n, c);
          if Under(par, c, m) {
            UnderTransitive(tree, par, n, c, m);
          }
        }
      }
    }
  }

  /** A leaf has nothing below it. */
  lemma LeafAlone(tree: Tree, par: seq<int>, id: nat)
    requires Parents(tree, par) && id < |tree| && IsLeaf(tree, id)
    ensures forall m :: 0 <= m < |tree| && m != id ==> !Under(par, id, m)
  {
    forall m | 0 <= m < |tree| && m != id
      ensures !Under(par, id, m)
    {
      if Under(par, id, m) {
        var c := UnderChild(tree, par, id, m);
      }
    }
  }

  /** Node `id`'s own entry after the children `lo` to `c`. */
  ghost predicate Gathered(tree: Tree, before: NodeInfo, now: NodeInfo, lo: nat, c: nat)
    requires WellFormed(tree) && lo <= c <= |tree|
  {
    now == NodeInfo(LeavesIn(tree, lo, c), MinDepthIn(tree, lo, c), MaxDepthIn(tree, lo, c), before.parent)
  }

  lemma GatherMore(tree: Tree, before: NodeInfo, now: NodeInfo, lo: nat, c: nat)
    requires WellFormed(tree) && lo <= c < |tree| && Gathered(tree, before, now, lo, c)
    ensures Gathered(tree, before, AddChild(now, NodeInfo(Leaves(tree, c), MinDepth(tree, c), MaxDepth(tree, c), 0)),
      lo, c + 1)
  {
  }

  /** What a child adds to its parent's entry. */
  function AddChild(info: NodeInfo, child: NodeInfo): NodeInfo {
    info.(leafSize := info.leafSize + child.leafSize,
          minDepth := if info.minDepth > child.minDepth then child.minDepth else info.minDepth,
          maxDepth := if info.maxDepth < child.maxDepth then child.maxDepth else info.maxDepth)
  }

  /** The three updates of a parent's entry. */
  method UpdateParent(infos: array<NodeInfo>, id: nat, nodeId: nat)
    requires id < infos.Length && nodeId < infos.Length && id != nodeId
    modifies infos
    ensures infos[..] == old(infos[..])[id := AddChild(old(infos[id]), old(infos[nodeId]))]
  {
    if infos[id].minDepth > infos[nodeId].minDepth {
      infos[id] := infos[id].(minDepth := infos[nodeId].minDepth);
    }
    if infos[id].maxDepth < infos[nodeId].maxDepth {
      infos[id] := infos[id].(maxDepth := infos[nodeId].maxDepth);
    }
    infos[id] := infos[id].(leafSize := infos[id].leafSize + infos[nodeId].leafSize);
  }

  /** The state of the loop over the children of `id`. */
  ghost predicate InLoop(tree: Tree, par: seq<int>, before: seq<NodeInfo>, now: seq<NodeInfo>, id: nat, c: nat)
    requires Parents(tree, par) && |before| == |now| == |tree| && id < |tree| && !IsLeaf(tree, id)
    requires tree[id].childStart <= c <= tree[id].childEnd
  {
    ChildrenDescribed(tree, par, before, now, id, c) && Gathered(tree, before[id], now[id], tree[id].childStart, c)
  }

  lemma LoopStarts(tree: Tree, par: seq<int>, before: seq<NodeInfo>, now: seq<NodeInfo>, id: nat)
    requires Parents(tree, par) && |before| == |tree| && id < |tree| && !IsLeaf(tree, id)
    requires SubtreeFresh(par, before, id) && now == before[id := before[id].(leafSize := 0)]
    ensures InLoop(tree, par, before, now, id, tree[id].childStart)
  {
    assert Under(par, id, id);
  }

  lemma OneMoreChild(tree: Tree, par: seq<int>, before: seq<NodeInfo>, now: seq<NodeInfo>, after: seq<NodeInfo>,
      id: nat, c: nat)
    requires Parents(tree, par) && |before| == |now| == |after| == |tree| && id < |tree| && !IsLeaf(tree, id)
      && IsChild(tree, id, c)
    requires InLoop(tree, par, before, now, id, c)
      && SubtreeDescribed(tree, par, now[c := now[c].(parent := id)], after, c)
    ensures InLoop(tree, par, before, after[id := AddChild(after[id], after[c])], id, c + 1)
  {
    ChildStep(tree, par, before, now, after, id, c);
    GatherMore(tree, before[id], now[id], tree[id].childStart, c);
  }

  /** One turn of the loop over the children of `id`. */
  method SelectChild(tree: Tree, id: nat, nodeId: nat, infos: array<NodeInfo>, candidates: seq<HeadCandidate>,
      ghost before: seq<NodeInfo>, ghost par: seq<int>)
    returns (out: seq<HeadCandidate>)
    requires Parents(tree, par) && NoCollapsed(tree) && id < |tree| == infos.Length == |before| && !IsLeaf(tree, id)
      && IsChild(tree, id, nodeId)
    requires SubtreeFresh(par, before, id) && InLoop(tree, par, before, infos[..], id, nodeId)
    modifies infos
    ensures InLoop(tree, par, before, infos[..], id, nodeId + 1)
    ensures out == candidates + Inner(tree, nodeId)
    decreases |tree| - id, 0
  {
    ghost var now := infos[..];
    ChildStillFresh(tree, par, before, now, id, nodeId);
    infos[nodeId] := infos[nodeId].(parent := id);
    assert infos[..] == now[nodeId := now[nodeId].(parent := id)];
    out := DfsSelect(tree, nodeId, infos, candidates, par);
    OneMoreChild(tree, par, before, now, infos[..], id, nodeId);
    UpdateParent(infos, id, nodeId);
  }

  lemma Completed(tree: Tree, par: seq<int>, before: seq<NodeInfo>, now: seq<NodeInfo>, id: nat)
    requires Parents(tree, par) && |before| == |now| == |tree| && id < |tree| && !IsLeaf(tree, id)
    requires InLoop(tree, par, before, now, id, tree[id].childEnd)
    ensures var done := now[id := now[id].(minDepth := now[id].minDepth + 1, maxDepth := now[id].maxDepth + 1)];
      SubtreeDescribed(tree, par, before, done, id) && Described(tree, done, id)
  {
    ChildrenComplete(tree, par, before,
      now[id := now[id].(minDepth := now[id].minDepth + 1, maxDepth := now[id].maxDepth + 1)], id);
  }

  /** Fills in leaf count, depths and parent of every node below `id` and appends its inner nodes to the candidates. */
  method DfsSelect(tree: Tree, id: nat, infos: array<NodeInfo>, candidates: seq<HeadCandidate>, ghost par: seq<int>)
    returns (out: seq<HeadCandidate>)
    requires Parents(tree, par) && NoCollapsed(tree) && id < |tree| == infos.Length
    requires SubtreeFresh(par, infos[..], id)
    modifies infos
    ensures SubtreeDescribed(tree, par, old(infos[..]), infos[..], id)
    ensures out == candidates + Inner(tree, id)
    decreases |tree| - id, 1
  {
    var node := tree[id];
    out := candidates;
    if node.childStart == -1 {
      infos[id] := infos[id].(leafSize := 1, minDepth := 0, maxDepth := 0);
      LeafAlone(tree, par, id);
      assert Under(par, id, id);
      return;
    }
    ghost var before := infos[..];
    infos[id] := infos[id].(leafSize := 0);
    LoopStarts(tree, par, before, infos[..], id);
    for nodeId := node.childStart to node.childEnd
      invariant InLoop(tree, par, before, infos[..], id, nodeId)
      invariant out == candidates + InnerIn(tree, node.childStart, nodeId)
    {
      out := SelectChild(tree, id, nodeId, infos, out, before, par);
      MoreInner(tree, node.childStart, nodeId);
    }
    Completed(tree, par, before, infos[..], id);
    infos[id] := infos[id].(minDepth := infos[id].minDepth + 1, maxDepth := infos[id].maxDepth + 1);
    out := out + [HeadCandidate(id, infos[id].leafSize, infos[id].minDepth)];
  }

  lemma MoreInner(tree: Tree, lo: nat, i: nat)
    requires WellFormed(tree) && lo <= i < |tree|
    ensures InnerIn(tree, lo, i + 1) == InnerIn(tree, lo, i) + Inner(tree, i)
  {
  }
}
